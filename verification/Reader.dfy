/**
 * ReverseFileReader: reads a block file from its end. A refill moves the last
 * `capacity` bytes of the file (or all that is left of it) into the front of
 * the buffer and truncates the file by as much, deleting the file once it is
 * exhausted; `pop` then hands out the buffered records from the top down.
 * Blocks are written in descending key order, so the records come out
 * ascending, and what has been handed out no longer occupies the disk.
 */
module Reader {
  import opened Wrappers
  import opened Bytes
  import opened Comparison

  /** How many bytes a refill moves: the whole rest of the file if it fits, else a full buffer. */
  function RefillAmount(fileLength: nat, capacity: nat): nat
  {
    if fileLength <= capacity then fileLength else capacity
  }

  /**
   * Whether opening a reader throws: the first refill sets the buffer
   * position to amount - 16, which ByteBuffer rejects when negative.
   */
  predicate OpenFails(capacity: nat, fileLength: nat)
  {
    RefillAmount(fileLength, capacity) < HASH_SIZE
  }

  /** Popping one more record puts it in front of the bytes of the earlier pops, read back to front. */
  lemma PoppedBytesGrow(popped: seq<Hash>, h: Hash)
    ensures Flatten(Reverse(popped + [h])) == h + Flatten(Reverse(popped))
  {
    ReverseAppend(popped, [h]);
    assert Reverse([h]) == [h];
    assert ([h] + Reverse(popped))[1..] == Reverse(popped);
  }

  /** Moving the top record of the unread buffer to the popped records keeps the conservation equation. */
  lemma PopConserves(original: seq<Byte>, file: seq<Byte>, buf: seq<Byte>, limit: int, popped: seq<Hash>, h: Hash)
    requires HASH_SIZE <= limit <= |buf| && buf[limit - HASH_SIZE..limit] == h
    requires original == file + buf[..limit] + Flatten(Reverse(popped))
    ensures original == file + buf[..limit - HASH_SIZE] + Flatten(Reverse(popped + [h]))
    ensures limit == HASH_SIZE ==> original == file + Flatten(Reverse(popped + [h]))
  {
    assert buf[..limit] == buf[..limit - HASH_SIZE] + h;
    PoppedBytesGrow(popped, h);
    assert buf[..0] == [];
  }

  class ReverseFileReader {
    /** The buffer; its length is the ByteBuffer's capacity. */
    const buffer: array<Byte>
    /** Start of the record `pop` hands out next. */
    var position: int
    /** End of the unread part of the buffer: bytes [0, limit) are still to be popped. */
    var limit: int
    /** Set once the last part of the file has been moved into the buffer. */
    var empty: bool
    /** The block file as it is on disk now. */
    var file: seq<Byte>
    /** Whether the block file still exists. */
    var onDisk: bool
    /** The block file as it was when the reader was opened. */
    ghost var original: seq<Byte>
    /** The records popped so far, in the order they were popped. */
    ghost var popped: seq<Hash>

    /**
     * The reader's invariant. Between pops the window [position, limit) is
     * exactly one record; the buffer only runs dry once the file is gone;
     * and nothing is lost or repeated: what is left on disk, then the unread
     * buffer, then the popped records back to front, is the original file.
     */
    ghost predicate Valid()
      reads this, buffer
    {
      && buffer.Length >= HASH_SIZE && buffer.Length % HASH_SIZE == 0
      && |file| % HASH_SIZE == 0
      && 0 <= limit <= buffer.Length && limit % HASH_SIZE == 0
      && position == (if limit == 0 then 0 else limit - HASH_SIZE)
      && (limit == 0 ==> empty)
      && (empty <==> file == [])
      && onDisk == !empty
      && original == file + buffer[..limit] + Flatten(Reverse(popped))
    }

    /** The bytes still to be popped: the rest of the file, then the unread buffer. */
    ghost function Unread(): seq<Byte>
      reads this, buffer
      requires 0 <= limit <= buffer.Length
    {
      file + buffer[..limit]
    }

    /** `ByteBuffer.allocate(bufferSize)` and `empty = false`; the first refill is left to Open. */
    constructor (bufferSize: nat, contents: seq<Byte>)
      ensures buffer.Length == bufferSize && fresh(buffer)
      ensures position == 0 && limit == bufferSize && !empty
      ensures file == contents && onDisk
      ensures original == contents && popped == []
    {
      buffer := new Byte[bufferSize](_ => 0);
      position, limit := 0, bufferSize;
      empty := false;
      file, onDisk := contents, true;
      original, popped := contents, [];
    }

    /**
     * `refillBuffer()`. When the file is already exhausted the buffer is
     * emptied and the disk left alone. Otherwise it moves
     * amount = min(file length, capacity) bytes from the end of the file to
     * the front of the buffer, sets `empty` exactly when that was the rest of
     * the file, leaves a one-record window at the top of the moved bytes,
     * truncates the file and deletes it once it is exhausted. A move of
     * fewer than 16 bytes throws from `position(amount - 16)`.
     */
    method RefillBuffer() returns (outcome: Outcome)
      requires buffer.Length % HASH_SIZE == 0 && |file| % HASH_SIZE == 0
      requires empty ==> file == [] && !onDisk && buffer.Length >= HASH_SIZE
      requires !empty ==> onDisk
      requires original == file + Flatten(Reverse(popped))
      modifies this, buffer
      ensures original == old(original) && popped == old(popped)
      ensures outcome.Fail? <==> !old(empty) && OpenFails(buffer.Length, |old(file)|)
      ensures outcome.Fail? ==> outcome.error == IllegalArgument && file == old(file) && onDisk
      ensures outcome.Pass? ==> Valid() && Unread() == old(file)
      ensures old(empty) ==> limit == 0 && file == old(file) && onDisk == old(onDisk)
      ensures !old(empty) && outcome.Pass? ==>
        var amount := RefillAmount(|old(file)|, buffer.Length);
        && empty == (|old(file)| <= buffer.Length)
        && limit == amount && position == amount - HASH_SIZE
        && buffer[..amount] == old(file)[|old(file)| - amount..]
        && file == old(file)[..|old(file)| - amount]
        && onDisk == !empty
    {
      if empty {
        // limit(0) also pulls the position back to 0
        limit, position := 0, 0;
        return Pass;
      }
      var amount: int;
      if |file| <= buffer.Length {
        amount := |file|;
        empty := true;
      } else {
        amount := buffer.Length;
      }
      // clear(), then read the last `amount` bytes of the file into the front of the buffer
      var from := |file| - amount;
      for i := 0 to amount
        modifies buffer
        invariant forall k :: 0 <= k < i ==> buffer[k] == file[from + k]
      {
        buffer[i] := file[from + i];
      }
      assert buffer[..amount] == file[from..];
      if amount < HASH_SIZE {
        return Fail(IllegalArgument);
      }
      position, limit := amount - HASH_SIZE, amount;
      assert file == file[..from] + buffer[..limit];
      file := file[..from];
      if empty {
        onDisk := false;
      }
      return Pass;
    }

    /**
     * `pop()`: null exactly when the file and the buffer are both exhausted.
     * Otherwise the record in the window, after which the window moves one
     * record down, or, if it was at the bottom of the buffer, the buffer is
     * refilled. The record popped is always the last of the unread bytes.
     */
    method Pop() returns (h: Option<Hash>)
      requires Valid()
      modifies this, buffer
      ensures Valid() && original == old(original)
      ensures h.None? <==> old(empty && limit == 0)
      ensures h.None? <==> old(Unread()) == []
      ensures h.None? ==> popped == old(popped) && file == old(file)
      ensures h.Some? ==> h.value == old(buffer[position..position + HASH_SIZE])
      ensures h.Some? ==> old(Unread()) == Unread() + h.value && popped == old(popped) + [h.value]
      ensures h.Some? && old(position) != 0 ==>
        position == old(position) - HASH_SIZE && limit == old(limit) - HASH_SIZE && file == old(file)
    {
      if empty && limit == 0 {
        return None;
      }
      var oldPosition := position;
      var oldLimit := limit;
      var result: Hash := buffer[position..position + HASH_SIZE];
      PopConserves(original, file, buffer[..], limit, popped, result);
      popped := popped + [result];
      if oldPosition == 0 {
        var outcome := RefillBuffer();
        assert outcome.Pass?;
      } else {
        position, limit := oldPosition - HASH_SIZE, oldLimit - HASH_SIZE;
      }
      return Some(result);
    }
  }

  /**
   * `new ReverseFileReader(bufferSize, filename)` on a block file holding
   * `contents`: allocates the buffer and does the first refill. It throws
   * for a negative size, and when the first refill moves less than one
   * record (an empty file or a buffer smaller than a record).
   */
  method Open(bufferSize: int, contents: seq<Byte>) returns (res: Result<ReverseFileReader>)
    requires bufferSize % HASH_SIZE == 0 && |contents| % HASH_SIZE == 0
    ensures res.Failure? <==> bufferSize < 0 || OpenFails(bufferSize, |contents|)
    ensures res.Failure? ==> res.error == IllegalArgument
    ensures res.Success? ==> fresh(res.value) && fresh(res.value.buffer)
    ensures res.Success? ==> res.value.Valid() && res.value.buffer.Length == bufferSize
    ensures res.Success? ==> res.value.original == contents && res.value.popped == []
  {
    if bufferSize < 0 {
      return Failure(IllegalArgument);
    }
    var r := new ReverseFileReader(bufferSize, contents);
    var outcome := r.RefillBuffer();
    if outcome.Fail? {
      return Failure(outcome.error);
    }
    return Success(r);
  }

  /**
   * Conservation, on records: the original file's records are the records
   * still unread followed by the popped ones in reverse.
   */
  lemma UnreadThenPopped(unread: seq<Byte>, popped: seq<Hash>)
    requires |unread| % HASH_SIZE == 0
    ensures Records(unread + Flatten(Reverse(popped))) == Records(unread) + Reverse(popped)
  {
    RecordsAppend(unread, Flatten(Reverse(popped)));
    RecordsOfFlatten(Reverse(popped));
  }

  /**
   * The order of pops: the records popped so far, followed by the records the
   * unread bytes still hold read back to front, are the original file's
   * records read back to front.
   */
  lemma PopOrder(original: seq<Byte>, unread: seq<Byte>, popped: seq<Hash>)
    requires |unread| % HASH_SIZE == 0
    requires original == unread + Flatten(Reverse(popped))
    ensures |original| % HASH_SIZE == 0
    ensures Reverse(Records(original)) == popped + Reverse(Records(unread))
  {
    WholeRecords(|unread|, |popped|);
    UnreadThenPopped(unread, popped);
    ReverseAppend(Records(unread), Reverse(popped));
    ReverseReverse(popped);
  }

  /** A sequence in descending key order, read back to front, is in ascending key order. */
  lemma DescendingReversedAscends(rs: seq<Hash>)
    requires Descending(rs, 0, |rs|)
    ensures Ascending(Reverse(rs))
  {
    var n := |rs|;
    forall i | 0 <= i < n
      ensures Reverse(rs)[i] == rs[n - 1 - i]
    {
      ReverseIndex(rs, i);
    }
  }

  /**
   * A reader over a file in descending key order pops in ascending order:
   * the records popped so far, followed by those still to be popped, form
   * one non-decreasing sequence.
   */
  lemma DescendingFilePopsAscending(original: seq<Byte>, unread: seq<Byte>, popped: seq<Hash>)
    requires |unread| % HASH_SIZE == 0
    requires original == unread + Flatten(Reverse(popped))
    requires Descending(Records(original), 0, |original| / HASH_SIZE)
    ensures Ascending(popped + Reverse(Records(unread)))
  {
    PopOrder(original, unread, popped);
    DescendingReversedAscends(Records(original));
  }

  /** Once a reader is exhausted, it has popped exactly the file's records, last first. */
  lemma ExhaustedPoppedAll(original: seq<Byte>, popped: seq<Hash>)
    requires original == [] + Flatten(Reverse(popped))
    ensures |original| % HASH_SIZE == 0 && popped == Reverse(Records(original))
  {
    UnreadThenPopped([], popped);
    assert [] + Flatten(Reverse(popped)) == Flatten(Reverse(popped));
    assert Records(original) == Reverse(popped);
    ReverseReverse(popped);
  }
}
