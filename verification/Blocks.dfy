/**
 * Block: one in-memory block of records for the IDs start..end. Its buffer
 * is filled by worker threads (each one a consecutive sub-range of IDs,
 * written at the IDs' own record slots), sorted in place into descending
 * key order, written to the block's file and then released.
 *
 * A record is the MD5 digest of the ID's 16-digit zero-padded hex form plus
 * a newline; MD5 itself is a parameter `md5` of the operations that need it.
 */
module Blocks {
  import opened Wrappers
  import opened Bytes
  import opened Comparison
  import opened Ranges
  import Quicksort

  /** Java's `long` range, in which block IDs live. */
  const LONG_MIN: int := -0x8000_0000_0000_0000
  const LONG_MAX: int := 0x7fff_ffff_ffff_ffff

  /** ForkJoinPool's largest parallelism (MAX_CAP); a pool outside 1..MAX_CAP throws. */
  const FORK_JOIN_MAX_CAP: int := 0x7fff

  predicate IsLong(n: int)
  {
    LONG_MIN <= n <= LONG_MAX
  }

  // ---------------------------------------------------------------- strings

  function HexChar(d: nat): char
    requires d < 16
  {
    "0123456789abcdef"[d]
  }

  /** The digits of u in base 16, lower case, without leading zeros ("0" for 0). */
  function HexDigits(u: nat): (s: string)
    ensures 1 <= |s|
    ensures u >= 16 ==> 2 <= |s|
    decreases u
  {
    if u < 16 then [HexChar(u)] else HexDigits(u / 16) + [HexChar(u % 16)]
  }

  /** `Long.toHexString(n)`: the unsigned 64-bit reading of n in base 16. */
  function ToHexString(n: int): string
    requires IsLong(n)
  {
    HexDigits(if n < 0 then n + 0x1_0000_0000_0000_0000 else n)
  }

  lemma HexCharInjective(a: nat, b: nat)
    requires a < 16 && b < 16 && HexChar(a) == HexChar(b)
    ensures a == b
  {
  }

  function Pow16(k: nat): nat
  {
    if k == 0 then 1 else 16 * Pow16(k - 1)
  }

  /** Below 16^k there are at most k hex digits. */
  lemma {:induction false} HexDigitsLength(u: nat, k: nat)
    requires 1 <= k && u < Pow16(k)
    ensures |HexDigits(u)| <= k
    decreases k
  {
    if u >= 16 {
      HexDigitsLength(u / 16, k - 1);
    }
  }

  /** A Java long prints in at most 16 hex digits, so `padZeros` never throws on it. */
  lemma HexStringFits(n: int)
    requires IsLong(n)
    ensures |ToHexString(n)| <= HASH_SIZE
  {
    assert Pow16(16) == 0x1_0000_0000_0000_0000 by {
      assert Pow16(1) == 0x10;
      assert Pow16(2) == 0x100;
      assert Pow16(3) == 0x1000;
      assert Pow16(4) == 0x1_0000;
      assert Pow16(5) == 0x10_0000;
      assert Pow16(6) == 0x100_0000;
      assert Pow16(7) == 0x1000_0000;
      assert Pow16(8) == 0x1_0000_0000;
      assert Pow16(9) == 0x10_0000_0000;
      assert Pow16(10) == 0x100_0000_0000;
      assert Pow16(11) == 0x1000_0000_0000;
      assert Pow16(12) == 0x1_0000_0000_0000;
      assert Pow16(13) == 0x10_0000_0000_0000;
      assert Pow16(14) == 0x100_0000_0000_0000;
      assert Pow16(15) == 0x1000_0000_0000_0000;
    }
    HexDigitsLength(if n < 0 then n + 0x1_0000_0000_0000_0000 else n, 16);
  }

  /** Different numbers have different hex forms, and no form but "0" starts with '0'. */
  lemma {:induction false} HexDigitsInjective(a: nat, b: nat)
    requires HexDigits(a) == HexDigits(b)
    ensures a == b
    decreases a
  {
    var s := HexDigits(a);
    if a < 16 && b < 16 {
      HexCharInjective(a, b);
    } else if a >= 16 && b >= 16 {
      assert s[|s| - 1] == HexChar(a % 16) == HexChar(b % 16);
      HexCharInjective(a % 16, b % 16);
      assert HexDigits(a / 16) == s[..|s| - 1] == HexDigits(b / 16);
      HexDigitsInjective(a / 16, b / 16);
    }
  }

  lemma {:induction false} HexDigitsLead(u: nat)
    ensures HexDigits(u)[0] == '0' ==> u == 0
    decreases u
  {
    if u >= 16 {
      HexDigitsLead(u / 16);
      assert HexDigits(u)[0] == HexDigits(u / 16)[0];
    }
  }

  /** Java's decimal rendering of a non-negative int, as in `filename + blockId`. */
  function DecimalString(n: nat): (s: string)
    ensures 1 <= |s|
    ensures n >= 10 ==> 2 <= |s|
    decreases n
  {
    if n < 10 then ["0123456789"[n]] else DecimalString(n / 10) + ["0123456789"[n % 10]]
  }

  lemma {:induction false} DecimalStringInjective(a: nat, b: nat)
    requires DecimalString(a) == DecimalString(b)
    ensures a == b
    decreases a
  {
    var s := DecimalString(a);
    if a >= 10 && b >= 10 {
      assert s[|s| - 1] == "0123456789"[a % 10] == "0123456789"[b % 10];
      assert DecimalString(a / 10) == s[..|s| - 1] == DecimalString(b / 10);
      DecimalStringInjective(a / 10, b / 10);
    }
  }

  /** The file a block writes: `filename + blockId`. */
  function BlockFileName(prefix: string, blockId: nat): string
  {
    prefix + DecimalString(blockId)
  }

  /** Distinct block IDs give distinct files, so no block overwrites another. */
  lemma BlockFilesDistinct(prefix: string, a: nat, b: nat)
    requires a != b
    ensures BlockFileName(prefix, a) != BlockFileName(prefix, b)
  {
    if BlockFileName(prefix, a) == BlockFileName(prefix, b) {
      assert DecimalString(a) == BlockFileName(prefix, a)[|prefix|..];
      assert DecimalString(b) == BlockFileName(prefix, b)[|prefix|..];
      DecimalStringInjective(a, b);
    }
  }

  /**
   * `padZeros(hexString)`: the string left-padded with '0' to 16 characters.
   * A string longer than 16 makes `"0".repeat` throw.
   */
  function PadZeros(hex: string): (r: Result<string>)
    ensures r.Failure? <==> |hex| > HASH_SIZE
    ensures r.Failure? ==> r.error == IllegalArgument
    ensures r.Success? ==> |r.value| == HASH_SIZE && r.value[HASH_SIZE - |hex|..] == hex
    ensures r.Success? ==> forall i :: 0 <= i < HASH_SIZE - |hex| ==> r.value[i] == '0'
  {
    if |hex| > HASH_SIZE then Failure(IllegalArgument)
    else Success(seq(HASH_SIZE - |hex|, _ => '0') + hex)
  }

  /** A hex form as `Long.toHexString` writes it: no leading zero unless it is "0". */
  ghost predicate NoLeadingZero(s: string)
  {
    |s| >= 1 && (s[0] == '0' ==> s == "0")
  }

  /** Padding loses nothing: two hex forms without leading zeros pad alike only if they are equal. */
  lemma PadZerosInjective(a: string, b: string)
    requires NoLeadingZero(a) && NoLeadingZero(b)
    requires PadZeros(a).Success? && PadZeros(b).Success?
    requires PadZeros(a).value == PadZeros(b).value
    ensures a == b
  {
    var pa, pb := PadZeros(a).value, PadZeros(b).value;
    if |a| == |b| {
      assert a == pa[HASH_SIZE - |a|..] == pb[HASH_SIZE - |b|..] == b;
    }
  }

  predicate IsHexChar(c: char)
  {
    '0' <= c <= '9' || 'a' <= c <= 'f'
  }

  lemma {:induction false} HexDigitsAreHex(u: nat)
    ensures forall i :: 0 <= i < |HexDigits(u)| ==> IsHexChar(HexDigits(u)[i])
    decreases u
  {
    if u >= 16 {
      HexDigitsAreHex(u / 16);
    }
  }

  /** The text MD5 digests for ID n: the padded hex form and a newline. */
  function DigestText(n: int): (t: string)
    requires IsLong(n)
    ensures |t| == HASH_SIZE + 1 && t[HASH_SIZE] == '\n'
    ensures forall i :: 0 <= i < HASH_SIZE ==> IsHexChar(t[i])
  {
    HexStringFits(n);
    HexDigitsAreHex(if n < 0 then n + 0x1_0000_0000_0000_0000 else n);
    PadZeros(ToHexString(n)).value + "\n"
  }

  /** The bytes MD5 digests for ID n: `DigestText(n).getBytes("UTF-8")`, which is ASCII here. */
  function DigestInput(n: int): (bs: seq<Byte>)
    requires IsLong(n)
    ensures |bs| == HASH_SIZE + 1
    ensures forall i :: 0 <= i < |bs| ==> bs[i] as int == DigestText(n)[i] as int
  {
    var text := DigestText(n);
    seq(|text|, i requires 0 <= i < |text| => text[i] as int as Byte)
  }

  /** The record of ID n, given the digest function. */
  function RecordOf(md5: seq<Byte> -> Hash, n: int): Hash
    requires IsLong(n)
  {
    md5(DigestInput(n))
  }

  /** Distinct IDs are digested from distinct inputs. */
  lemma DigestInputsDistinct(n: int, m: int)
    requires IsLong(n) && IsLong(m) && n != m
    ensures DigestInput(n) != DigestInput(m)
  {
    var un := if n < 0 then n + 0x1_0000_0000_0000_0000 else n;
    var um := if m < 0 then m + 0x1_0000_0000_0000_0000 else m;
    if DigestInput(n) == DigestInput(m) {
      var tn, tm := DigestText(n), DigestText(m);
      assert forall i :: 0 <= i < |tn| ==> tn[i] as int == tm[i] as int;
      assert tn == tm;
      HexStringFits(n);
      HexStringFits(m);
      var hn, hm := ToHexString(n), ToHexString(m);
      assert PadZeros(hn).value == tn[..HASH_SIZE] == tm[..HASH_SIZE] == PadZeros(hm).value;
      HexDigitsLead(un);
      HexDigitsLead(um);
      PadZerosInjective(hn, hm);
      HexDigitsInjective(un, um);
    }
  }

  // ---------------------------------------------------------------- records

  /** Java's `int` bound, and the most records whose byte count still fits in an int. */
  const INT_MAX: int := 0x7fff_ffff
  const MAX_BLOCK_HASHES: int := INT_MAX / HASH_SIZE

  /** The records of the IDs lo..hi, in ID order. */
  function Encoded(md5: seq<Byte> -> Hash, lo: int, hi: int): (r: seq<Hash>)
    requires IsLong(lo) && IsLong(hi)
    ensures |r| == if hi < lo then 0 else hi - lo + 1
    ensures forall k :: 0 <= k < |r| ==> r[k] == RecordOf(md5, lo + k)
  {
    if hi < lo then [] else seq<Hash>(hi - lo + 1, k requires 0 <= k <= hi - lo => RecordOf(md5, lo + k))
  }

  /** Byte offset of ID n's record in a block whose first ID is blockStart. */
  function Offset(n: int, blockStart: int): int
  {
    (n - blockStart) * HASH_SIZE
  }

  /**
   * The slot of every ID of a block lies inside the block's buffer, and the
   * slots of two different IDs do not overlap, so threads that write
   * different IDs never write the same byte.
   */
  lemma OffsetsDisjoint(n: int, m: int, blockStart: int, blockEnd: int)
    requires blockStart <= n <= blockEnd && blockStart <= m <= blockEnd
    ensures 0 <= Offset(n, blockStart) && Offset(n, blockStart) + HASH_SIZE <= HASH_SIZE * (blockEnd - blockStart + 1)
    ensures n != m ==> Offset(n, blockStart) + HASH_SIZE <= Offset(m, blockStart) || Offset(m, blockStart) + HASH_SIZE <= Offset(n, blockStart)
  {
  }

  /** The slots of IDs lo..hi in `s` hold those IDs' records. */
  ghost predicate Filled(s: seq<Byte>, md5: seq<Byte> -> Hash, blockStart: int, lo: int, hi: int)
  {
    forall n :: lo <= n <= hi ==>
      && IsLong(n) && 0 <= Offset(n, blockStart) && Offset(n, blockStart) + HASH_SIZE <= |s|
      && s[Offset(n, blockStart)..][..HASH_SIZE] == RecordOf(md5, n)
  }

  /** `s` and `t` have the same length and agree outside positions [from, to). */
  ghost predicate SameOutside(s: seq<Byte>, t: seq<Byte>, from: int, to: int)
  {
    |s| == |t| && forall x :: 0 <= x < |s| && !(from <= x < to) ==> s[x] == t[x]
  }

  /** Filled slots stay filled when only bytes from `from` on change. */
  lemma FilledKept(s: seq<Byte>, s': seq<Byte>, md5: seq<Byte> -> Hash, blockStart: int, lo: int, hi: int, from: int)
    requires Filled(s, md5, blockStart, lo, hi) && |s'| == |s|
    requires lo <= hi ==> Offset(hi + 1, blockStart) <= from
    requires forall x :: 0 <= x < |s| && x < from ==> s'[x] == s[x]
    ensures Filled(s', md5, blockStart, lo, hi)
  {
    forall n | lo <= n <= hi
      ensures s'[Offset(n, blockStart)..][..HASH_SIZE] == s[Offset(n, blockStart)..][..HASH_SIZE]
    {
      var o := Offset(n, blockStart);
      assert Offset(n + 1, blockStart) == o + HASH_SIZE;
      assert forall x :: 0 <= x < HASH_SIZE ==> s'[o..][..HASH_SIZE][x] == s'[o + x] == s[o + x];
    }
  }

  /** Filling the next slot extends the filled range by one ID. */
  lemma FilledExtend(s: seq<Byte>, md5: seq<Byte> -> Hash, blockStart: int, lo: int, n: int)
    requires Filled(s, md5, blockStart, lo, n - 1) && IsLong(n)
    requires 0 <= Offset(n, blockStart) && Offset(n, blockStart) + HASH_SIZE <= |s|
    requires s[Offset(n, blockStart)..][..HASH_SIZE] == RecordOf(md5, n)
    ensures Filled(s, md5, blockStart, lo, n)
  {
  }

  /** Two adjacent filled ranges make one. */
  lemma FilledJoin(s: seq<Byte>, md5: seq<Byte> -> Hash, blockStart: int, lo: int, mid: int, hi: int)
    requires Filled(s, md5, blockStart, lo, mid) && Filled(s, md5, blockStart, mid + 1, hi)
    ensures Filled(s, md5, blockStart, lo, hi)
  {
  }

  /**
   * One thread's call: the IDs before its part were filled, the call fills
   * its part and changes no byte outside it, so every ID up to the end of
   * its part is filled.
   */
  lemma ThreadFilled(before: seq<Byte>, after: seq<Byte>, md5: seq<Byte> -> Hash, blockStart: int, lo: int, hi: int)
    requires blockStart <= lo <= hi + 1
    requires Filled(before, md5, blockStart, blockStart, lo - 1)
    requires Filled(after, md5, blockStart, lo, hi)
    requires SameOutside(after, before, Offset(lo, blockStart), Offset(hi + 1, blockStart))
    ensures Filled(after, md5, blockStart, blockStart, hi)
  {
    if blockStart <= lo - 1 {
      assert forall x :: 0 <= x < |before| && x < Offset(lo, blockStart) ==> after[x] == before[x];
      FilledKept(before, after, md5, blockStart, blockStart, lo - 1, Offset(lo, blockStart));
    }
    if lo <= hi {
      FilledJoin(after, md5, blockStart, blockStart, lo - 1, hi);
    }
  }

  /** A buffer whose slots for all of start..end are filled holds exactly their records. */
  lemma FilledRecords(s: seq<Byte>, md5: seq<Byte> -> Hash, start: int, end: int)
    requires IsLong(start) && IsLong(end) && start <= end + 1
    requires |s| % HASH_SIZE == 0 && |s| / HASH_SIZE == end - start + 1
    requires Filled(s, md5, start, start, end)
    ensures Records(s) == Encoded(md5, start, end)
  {
    forall k | 0 <= k < |s| / HASH_SIZE
      ensures Records(s)[k] == Encoded(md5, start, end)[k]
    {
      assert Offset(start + k, start) == 16 * k;
    }
  }

  /** The inner loop of `call`: `hashes.put(startIndex + i, currentHash[i])` for the 16 bytes of one record. */
  method PutRecord(hashes: array<Byte>, startIndex: int, h: Hash)
    requires 0 <= startIndex && startIndex + HASH_SIZE <= hashes.Length
    modifies hashes
    ensures hashes[..][startIndex..][..HASH_SIZE] == h
    ensures forall x :: 0 <= x < hashes.Length && !(startIndex <= x < startIndex + HASH_SIZE) ==> hashes[x] == old(hashes[x])
  {
    for i := 0 to HASH_SIZE
      invariant forall k :: 0 <= k < i ==> hashes[startIndex + k] == h[k]
      invariant forall x :: 0 <= x < hashes.Length && !(startIndex <= x < startIndex + i) ==> hashes[x] == old(hashes[x])
    {
      hashes[startIndex + i] := h[i];
    }
    assert forall k :: 0 <= k < HASH_SIZE ==> hashes[..][startIndex..][..HASH_SIZE][k] == h[k];
  }

  /**
   * `GenerateHashesThread.call()`: writes the record of every ID in
   * threadStart..threadEnd into that ID's slot of the block's buffer and
   * nothing else. A released (null) buffer throws at the first write.
   */
  method Call(threadStart: int, threadEnd: int, hashes: array?<Byte>, blockStart: int, md5: seq<Byte> -> Hash)
    returns (outcome: Outcome)
    requires threadStart <= threadEnd ==> IsLong(threadStart) && IsLong(threadEnd)
    requires hashes != null && threadStart <= threadEnd ==>
      blockStart <= threadStart && Offset(threadEnd + 1, blockStart) <= hashes.Length
    modifies hashes
    ensures outcome.Fail? <==> hashes == null && threadStart <= threadEnd
    ensures outcome.Fail? ==> outcome.error == NullPointer
    ensures hashes != null ==> Filled(hashes[..], md5, blockStart, threadStart, threadEnd)
    ensures hashes != null ==> SameOutside(hashes[..], old(hashes[..]), Offset(threadStart, blockStart), Offset(threadEnd + 1, blockStart))
  {
    var currentNumber := threadStart;
    while currentNumber <= threadEnd
      invariant currentNumber == threadStart || threadStart < currentNumber <= threadEnd + 1
      invariant hashes == null ==> currentNumber == threadStart
      invariant hashes != null ==> Filled(hashes[..], md5, blockStart, threadStart, currentNumber - 1)
      invariant hashes != null ==> SameOutside(hashes[..], old(hashes[..]), Offset(threadStart, blockStart), Offset(currentNumber, blockStart))
    {
      if hashes == null {
        return Fail(NullPointer);
      }
      var currentHash := md5(DigestInput(currentNumber));
      var startIndex := (currentNumber - blockStart) * HASH_SIZE;
      ghost var before := hashes[..];
      PutRecord(hashes, startIndex, currentHash);
      FilledKept(before, hashes[..], md5, blockStart, threadStart, currentNumber - 1, startIndex);
      FilledExtend(hashes[..], md5, blockStart, threadStart, currentNumber);
      currentNumber := currentNumber + 1;
    }
    assert threadStart <= threadEnd ==> currentNumber == threadEnd + 1;
    return Pass;
  }

  /** Where thread i's IDs begin: just after thread i - 1's end, or at the block's start. */
  function ThreadsDone(start: int, end: int, threads: int, i: int): int
    requires threads >= 1
  {
    if i == 0 then start else PartEnd(start, end, threads, i - 1) + 1
  }

  /** Thread i starts where the threads before it stopped, and the next one starts after its end. */
  lemma ThreadStep(start: int, end: int, threads: int, i: int)
    requires threads >= 1 && start <= end + 1 && 0 <= i < threads
    ensures PartStart(start, end, threads, i) == ThreadsDone(start, end, threads, i)
    ensures ThreadsDone(start, end, threads, i + 1) == PartEnd(start, end, threads, i) + 1
    ensures start <= PartStart(start, end, threads, i) <= PartEnd(start, end, threads, i) + 1 <= end + 1
    ensures i == threads - 1 ==> PartEnd(start, end, threads, i) == end
  {
    PartsChain(start, end, threads, i);
    if i > 0 {
      PartsChain(start, end, threads, i - 1);
    }
  }

  class Block {
    const start: int
    const end: int
    const amountOfThreads: int
    const amountOfHashes: int
    const filename: string
    /** The record buffer; null once the block has been written. */
    var buffer: array?<Byte>
    /** The block's file: None until `writeToFile`. */
    var file: Option<seq<Byte>>

    /** The block's fields are consistent: a long range, its ID count, and a buffer of 16 bytes per ID while there is one. */
    ghost predicate Valid()
      reads this
    {
      && IsLong(start) && IsLong(end)
      && amountOfHashes == end - start + 1 >= 0
      && (buffer != null ==> buffer.Length == HASH_SIZE * amountOfHashes)
    }

    /** `Block(start, end, blockId, amountOfThreads, filename)` for a size ByteBuffer accepts. */
    constructor (start: int, end: int, blockId: nat, amountOfThreads: int, filename: string)
      requires IsLong(start) && IsLong(end) && 0 <= end - start + 1 <= MAX_BLOCK_HASHES
      ensures Valid()
      ensures this.start == start && this.end == end && this.amountOfThreads == amountOfThreads
      ensures amountOfHashes == end - start + 1
      ensures this.filename == BlockFileName(filename, blockId)
      ensures buffer != null && fresh(buffer) && buffer.Length == HASH_SIZE * amountOfHashes
      ensures file == None
    {
      this.start := start;
      this.end := end;
      this.amountOfHashes := end - start + 1;
      this.amountOfThreads := amountOfThreads;
      this.filename := BlockFileName(filename, blockId);
      this.buffer := new Byte[(end - start + 1) * HASH_SIZE](_ => 0);
      this.file := None;
    }

    /**
     * `generateHashes()`: the IDs are split into one consecutive sub-range
     * per thread (Ranges.Part), and each thread writes its IDs' records. A
     * thread count below 1 makes the thread pool throw; with a released
     * buffer, a thread that has an ID to write throws NullPointerException,
     * which `future.get()` rethrows wrapped in an ExecutionException.
     * Afterwards the buffer holds the records of start..end in ID order.
     */
    method GenerateHashes(md5: seq<Byte> -> Hash) returns (outcome: Outcome)
      requires Valid()
      modifies buffer
      ensures outcome.Fail? <==> amountOfThreads <= 0 || (buffer == null && amountOfHashes > 0)
      ensures outcome.Fail? ==> outcome.error == (if amountOfThreads <= 0 then IllegalArgument else Execution(NullPointer))
      ensures outcome.Pass? && buffer != null ==> Records(buffer[..]) == Encoded(md5, start, end)
    {
      if amountOfThreads <= 0 {
        return Fail(IllegalArgument);
      }
      var threadRange := amountOfHashes / amountOfThreads;
      var i := 0;
      ghost var done := start;
      while i < amountOfThreads
        invariant 0 <= i <= amountOfThreads
        invariant done == ThreadsDone(start, end, amountOfThreads, i) && start <= done <= end + 1
        invariant buffer != null ==> Filled(buffer[..], md5, start, start, done - 1)
        invariant buffer == null ==> done == start
      {
        var currentStart := start + i * threadRange;
        var currentEnd := start + (i + 1) * threadRange - 1;
        if i == amountOfThreads - 1 {
          currentEnd := end;
        }
        ThreadStep(start, end, amountOfThreads, i);
        assert currentStart == PartStart(start, end, amountOfThreads, i);
        assert currentEnd == PartEnd(start, end, amountOfThreads, i);
        ghost var before := if buffer == null then [] else buffer[..];
        outcome := Call(currentStart, currentEnd, buffer, start, md5);
        if outcome.Fail? {
          return Fail(Execution(outcome.error));
        }
        if buffer != null {
          ThreadFilled(before, buffer[..], md5, start, currentStart, currentEnd);
        }
        done := currentEnd + 1;
        i := i + 1;
      }
      if buffer != null {
        WholeRecords(0, amountOfHashes);
        FilledRecords(buffer[..], md5, start, end);
      }
      return Pass;
    }

    /**
     * `sort()`: sorts the records of the buffer into descending key order
     * (Quicksort.Compute over records 0..amountOfHashes - 1). A released
     * buffer throws, and so does a pool size outside 1..MAX_CAP.
     */
    method Sort() returns (outcome: Outcome)
      requires Valid()
      modifies buffer
      ensures outcome.Fail? <==> buffer == null || !(1 <= amountOfThreads <= FORK_JOIN_MAX_CAP)
      ensures outcome.Fail? ==> outcome.error == (if buffer == null then NullPointer else IllegalArgument)
      ensures outcome.Fail? && buffer != null ==> buffer[..] == old(buffer[..])
      ensures outcome.Pass? ==> Quicksort.PermutedIn(old(Records(buffer[..])), Records(buffer[..]), 0, amountOfHashes)
      ensures outcome.Pass? ==> Descending(Records(buffer[..]), 0, amountOfHashes)
    {
      if buffer == null {
        return Fail(NullPointer);
      }
      if amountOfThreads <= 0 || amountOfThreads > FORK_JOIN_MAX_CAP {
        return Fail(IllegalArgument);
      }
      Quicksort.Compute(buffer, 0, amountOfHashes - 1);
      return Pass;
    }

    /**
     * `writeToFile()`: the whole buffer becomes the block's file and the
     * buffer is released, so a later `sort` or `writeToFile` throws.
     */
    method WriteToFile() returns (outcome: Outcome)
      requires Valid()
      modifies this
      ensures Valid() && buffer == null
      ensures outcome.Fail? <==> old(buffer) == null
      ensures outcome.Fail? ==> outcome.error == NullPointer && file == old(file)
      ensures outcome.Pass? ==> file == Some(old(buffer[..]))
    {
      if buffer == null {
        return Fail(NullPointer);
      }
      file := Some(buffer[..]);
      buffer := null;
      return Pass;
    }
  }

  /**
   * `new Block(...)`: ByteBuffer.allocate throws for a negative size, that
   * is when end < start - 1.
   */
  method NewBlock(start: int, end: int, blockId: nat, amountOfThreads: int, filename: string)
    returns (res: Result<Block>)
    requires IsLong(start) && IsLong(end) && -MAX_BLOCK_HASHES <= end - start + 1 <= MAX_BLOCK_HASHES
    ensures res.Failure? <==> end - start + 1 < 0
    ensures res.Failure? ==> res.error == IllegalArgument
    ensures res.Success? ==> fresh(res.value) && fresh(res.value.buffer) && res.value.Valid()
    ensures res.Success? ==> res.value.start == start && res.value.end == end && res.value.amountOfThreads == amountOfThreads
    ensures res.Success? ==> res.value.filename == BlockFileName(filename, blockId)
    ensures res.Success? ==> res.value.buffer != null && res.value.file == None
  {
    if end - start + 1 < 0 {
      return Failure(IllegalArgument);
    }
    var b := new Block(start, end, blockId, amountOfThreads, filename);
    return Success(b);
  }
}
