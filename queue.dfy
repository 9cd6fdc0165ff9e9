/**
 * The bit queue: a FIFO of bits kept in a byte buffer used as a ring. A
 * read cursor and a write cursor, each a (byte, bit) pair, walk round the
 * buffer; `writtenBits` counts the bits held between them.
 *
 * Reads and writes move bits with the copy primitive of `BitCopy`, which
 * ORs into its destination. So a write ORs new bits over whatever the buffer
 * held at those positions, and a read ORs the queued bits into the caller's
 * buffer; neither clears anything.
 *
 * A released queue (after `Destroy`) is one whose `buffer` is null.
 */
module Queue {
  import opened Bits
  import opened Outcomes
  import opened Cursors
  import opened Circular
  import opened BitCopy

  class BitQueue {
    /** The ring of bytes; null once the queue has been released. */
    var buffer: array?<bv8>
    var rBitOffset: nat
    var rByteOffset: nat
    var wBitOffset: nat
    var wByteOffset: nat
    /** Number of bits held. */
    var writtenBits: nat
    /** Size of the ring in bytes. */
    var bufferSize: nat
    /** Whether releasing the queue also releases the buffer. */
    var freeBuff: bool

    /** Size of the ring in bits. */
    function Capacity(): nat
      reads this`bufferSize
    {
      bufferSize * BitsInByte
    }

    /** The read cursor as a bit position. */
    function ReadPos(): nat
      reads this`rByteOffset, this`rBitOffset
    {
      rByteOffset * BitsInByte + rBitOffset
    }

    /** The write cursor as a bit position. */
    function WritePos(): nat
      reads this`wByteOffset, this`wBitOffset
    {
      wByteOffset * BitsInByte + wBitOffset
    }

    /**
     * A live queue has a non-empty ring inside its array, both cursors on
     * the ring, at most a ring full of bits, and the write cursor exactly
     * `writtenBits` positions after the read cursor, round the ring.
     */
    ghost predicate Valid()
      reads this
    {
      buffer != null ==>
        0 < bufferSize <= buffer.Length &&
        rBitOffset < 8 && rByteOffset < bufferSize &&
        wBitOffset < 8 && wByteOffset < bufferSize &&
        writtenBits <= Capacity() &&
        WritePos() == Wrap(ReadPos() + writtenBits, Capacity())
    }

    /** The queued bits, oldest first. */
    ghost function Contents(): (bits: seq<bool>)
      reads this, buffer
      requires Valid() && buffer != null
      ensures |bits| == writtenBits
    {
      CircularBits(buffer[..], Capacity(), ReadPos(), writtenBits)
    }

    /** bit_queue_has_space: there is room for `bitCount` more bits. */
    function HasSpace(bitCount: nat): (b: bool)
      reads this, buffer
      requires Valid() && buffer != null
      ensures b <==> |Contents()| + bitCount <= Capacity()
    {
      Capacity() - writtenBits >= bitCount
    }

    /** bit_queue_has_data: at least `bitCount` bits are queued. */
    function HasData(bitCount: nat): (b: bool)
      reads this, buffer
      requires Valid() && buffer != null
      ensures b <==> bitCount <= |Contents()|
    {
      writtenBits >= bitCount
    }

    /** A queue over `buf` with cursors at (0, 0), as calloc leaves the struct before the fields are set. */
    constructor (buf: array<bv8>, byteCount: nat, writtenBits: nat, freeBuff: bool)
      ensures this.buffer == buf && this.bufferSize == byteCount
      ensures this.writtenBits == writtenBits && this.freeBuff == freeBuff
      ensures rBitOffset == 0 && rByteOffset == 0 && wBitOffset == 0 && wByteOffset == 0
    {
      this.buffer := buf;
      this.bufferSize := byteCount;
      this.writtenBits := writtenBits;
      this.freeBuff := freeBuff;
      rBitOffset, rByteOffset, wBitOffset, wByteOffset := 0, 0, 0, 0;
    }

    /**
     * bit_queue_base_init: an empty queue that owns a fresh zeroed buffer of
     * `byteCount` bytes; no queue for a zero size.
     */
    static method BaseInit(byteCount: nat) returns (bq: BitQueue?)
      ensures bq == null <==> byteCount == 0
      ensures bq != null ==>
        fresh(bq) && fresh(bq.buffer) && bq.Valid() && bq.buffer != null &&
        bq.buffer.Length == byteCount && bq.bufferSize == byteCount && bq.freeBuff &&
        bq.ReadPos() == 0 && bq.WritePos() == 0 && bq.Contents() == [] &&
        forall i :: 0 <= i < byteCount ==> bq.buffer[i] == 0
    {
      if byteCount == 0 {
        return null;
      }
      var buf := new bv8[byteCount](_ => 0);
      bq := new BitQueue(buf, byteCount, 0, true);
    }

    /**
     * bit_queue_init: a full queue over the caller's buffer, which it owns
     * when `freeBuff` says so; no queue for a zero size or a missing buffer.
     * The queued bits are the buffer's first `byteCount` bytes, in order.
     */
    static method Init(buffer: array?<bv8>, byteCount: nat, freeBuff: bool) returns (bq: BitQueue?)
      requires buffer != null ==> byteCount <= buffer.Length
      ensures bq == null <==> byteCount == 0 || buffer == null
      ensures bq != null ==>
        fresh(bq) && bq.Valid() && bq.buffer == buffer && buffer != null &&
        bq.bufferSize == byteCount && bq.freeBuff == freeBuff &&
        bq.writtenBits == bq.Capacity() && bq.ReadPos() == 0 && bq.WritePos() == 0 &&
        bq.Contents() == BitsFrom(buffer[..], 0, byteCount * 8)
    {
      if byteCount == 0 || buffer == null {
        return null;
      }
      bq := new BitQueue(buffer, byteCount, byteCount * BitsInByte, freeBuff);
    }

    /**
     * One pass of the read loop of bit_queue_read_bits: copies the oldest
     * queued bits (at most `rBits`, and not past the end of the ring) into
     * `buf` at bit `bByteOffset*8 + bBitOffset`, right after the bits
     * `taken` so far, and takes them off the queue.
     */
    method ReadChunk(buf: array<bv8>, bufSize: nat, bByteOffset: nat, bBitOffset: nat, rBits: nat,
                     ghost orig: seq<bv8>, ghost taken: seq<bool>)
      returns (ret: Outcome, ghost taken': seq<bool>)
      requires Valid() && buffer != null && buf != buffer && bufSize <= buf.Length
      requires 0 < rBits <= writtenBits && bBitOffset < 8 && bByteOffset * 8 + bBitOffset + rBits <= bufSize * 8
      requires bByteOffset * 8 + bBitOffset == |taken| && OrInto(orig, buf[..], 0, taken)
      modifies this`rByteOffset, this`rBitOffset, this`writtenBits, buf
      ensures Valid()
      ensures ret.Ok? && 0 < ret.value <= rBits && ret.value == Min(rBits, Capacity() - old(ReadPos()))
      ensures writtenBits == old(writtenBits) - ret.value
      ensures ReadPos() == Wrap(old(ReadPos()) + ret.value, Capacity())
      ensures taken' == taken + old(Contents())[..ret.value]
      ensures taken' + Contents() == taken + old(Contents())
      ensures OrInto(orig, buf[..], 0, taken')
    {
      ghost var ring, cap, start, held, before := buffer[..], Capacity(), ReadPos(), writtenBits, buf[..];
      ghost var data := Contents();
      ret := BitBufferCopy(buf, buffer, bByteOffset, bBitOffset, bufSize,
                           rByteOffset, rBitOffset, bufferSize, rBits);
      var n := ret.value;
      // the bits copied are the oldest ones: the ring does not wrap under them
      CircularReadStep(orig, before, buf[..], ring, cap, start, held, n, taken);
      taken' := taken + data[..n];
      ConsumeBits(n);
      assert taken + data == taken' + data[n..];
    }

    /**
     * The counter update after a chunk is read: the read cursor moves on by
     * `n` bits, back to (0, 0) when it reaches the end of the ring, and the
     * count drops by `n`.
     */
    method ConsumeBits(n: nat)
      requires Valid() && buffer != null
      requires n <= writtenBits && ReadPos() + n <= Capacity()
      modifies this`rByteOffset, this`rBitOffset, this`writtenBits
      ensures Valid()
      ensures writtenBits == old(writtenBits) - n
      ensures ReadPos() == Wrap(old(ReadPos()) + n, Capacity())
    {
      var rNext := Advance(rByteOffset, rBitOffset, n);
      rByteOffset, rBitOffset := rNext.0, rNext.1;
      if rByteOffset == bufferSize {
        // the bit offset is already 0 here
        rByteOffset := 0;
        rBitOffset := 0;
      }
      writtenBits := writtenBits - n;
      WrapTwice(old(ReadPos()), n, writtenBits, Capacity());
    }

    /**
     * The read loop of bit_queue_read_bits, run once its checks have
     * passed: takes `bitCount` queued bits off the queue, chunk by chunk,
     * and ORs them, oldest first, into `buf` from bit 0 on.
     */
    method ReadQueued(buf: array<bv8>, bufSize: nat, bitCount: nat) returns (r: Outcome)
      requires Valid() && buffer != null && buf != buffer && bufSize <= buf.Length
      requires 0 < bitCount <= writtenBits && bitCount <= bufSize * 8
      modifies this`rByteOffset, this`rBitOffset, this`writtenBits, buf
      ensures Valid() && r == Ok(bitCount)
      ensures writtenBits == old(writtenBits) - bitCount
      ensures ReadPos() == Wrap(old(ReadPos()) + bitCount, Capacity())
      ensures Contents() == old(Contents())[bitCount..]
      ensures OrInto(old(buf[..]), buf[..], 0, old(Contents())[..bitCount])
    {
      ghost var orig, data := buf[..], Contents();
      ghost var cap, start, held := Capacity(), ReadPos(), writtenBits;
      ghost var taken: seq<bool> := [];
      var rBits: nat := bitCount;
      var bBitOffset: nat, bByteOffset: nat := 0, 0;
      var ret: Outcome := Err(EInval);
      OrIntoNothing(orig, 0);
      // a do-while in the C code; `bitCount` is positive, so the first test passes
      while rBits > 0
        invariant Valid()
        invariant |taken| + rBits == bitCount && writtenBits + |taken| == held
        invariant taken + Contents() == data
        invariant |taken| > 0 ==> ret.Ok?
        invariant bBitOffset < 8 && bByteOffset * 8 + bBitOffset == |taken|
        invariant ReadPos() == Wrap(start + |taken|, cap)
        invariant OrInto(orig, buf[..], 0, taken)
        decreases rBits
      {
        ret, taken := ReadChunk(buf, bufSize, bByteOffset, bBitOffset, rBits, orig, taken);
        if ret.Err? {
          break;
        }
        WrapTwice(start, |taken| - ret.value, ret.value, cap);
        // update the buffer counters
        var bNext := Advance(bByteOffset, bBitOffset, ret.value);
        bByteOffset, bBitOffset := bNext.0, bNext.1;
        rBits := rBits - ret.value;
      }
      if ret.Ok? {
        ret := Ok(bitCount);
      }
      assert taken == data[..bitCount] && Contents() == data[bitCount..];
      return ret;
    }

    /**
     * bit_queue_read_bits: takes the oldest `bitCount` bits off the queue
     * and ORs them, oldest first, into `buf` from bit 0 on.
     *
     * Fails with EINVAL for a missing buffer, a zero count, a count larger
     * than `buf` holds, or a released queue; then with EMSGSIZE for a count
     * larger than the ring; then with EAGAIN when fewer bits are queued. A
     * failed read changes nothing.
     */
    method ReadBits(buf: array?<bv8>, bufSize: nat, bitCount: nat) returns (r: Outcome)
      requires Valid()
      requires buf != null ==> bufSize <= buf.Length && buf != buffer
      modifies this`rByteOffset, this`rBitOffset, this`writtenBits, buf
      ensures Valid()
      ensures buf == null || bitCount == 0 || bufSize * 8 < bitCount || buffer == null ==> r == Err(EInval)
      ensures buf != null && bitCount != 0 && bufSize * 8 >= bitCount && buffer != null ==>
        r == (if bitCount > Capacity() then Err(EMsgSize)
              else if |old(Contents())| < bitCount then Err(EAgain)
              else Ok(bitCount))
      ensures r.Err? ==> unchanged(this) && (buf != null ==> buf[..] == old(buf[..]))
      ensures r.Ok? ==>
        buffer != null && buf != null &&
        writtenBits == old(writtenBits) - bitCount &&
        ReadPos() == Wrap(old(ReadPos()) + bitCount, Capacity()) &&
        Contents() == old(Contents())[bitCount..] &&
        OrInto(old(buf[..]), buf[..], 0, old(Contents())[..bitCount])
    {
      if buf == null || bitCount == 0 || bufSize * BitsInByte < bitCount {
        return Err(EInval);
      }
      if buffer == null {
        return Err(EInval);
      }
      if bitCount > bufferSize * BitsInByte {
        return Err(EMsgSize);
      }
      if !HasData(bitCount) {
        return Err(EAgain);
      }
      r := ReadQueued(buf, bufSize, bitCount);
    }

    /**
     * One pass of the write loop of bit_queue_write_bits: copies `rBits`
     * bits of `buf` from bit `bByteOffset*8 + bBitOffset` into the ring at
     * the write cursor. The ring is the copy's destination, so this fails
     * with EMSGSIZE, changing nothing, when the bits would run past the end
     * of the ring. Otherwise it moves the write cursor past them, back to
     * byte 0 when it reaches the end of the ring, and adds them to the count.
     */
    method WriteChunk(buf: array<bv8>, bufSize: nat, bByteOffset: nat, bBitOffset: nat, rBits: nat)
      returns (ret: Outcome)
      requires Valid() && buffer != null && buf != buffer && bufSize <= buf.Length
      requires 0 < rBits && writtenBits + rBits <= Capacity()
      requires bBitOffset < 8 && bByteOffset * 8 + bBitOffset + rBits <= bufSize * 8
      modifies this`wByteOffset, this`wBitOffset, this`writtenBits, buffer
      ensures Valid()
      ensures ret == (if old(WritePos()) + rBits > Capacity() then Err(EMsgSize) else Ok(rBits))
      ensures ret.Err? ==> unchanged(this) && buffer[..] == old(buffer[..])
      ensures ret.Ok? ==>
        writtenBits == old(writtenBits) + rBits &&
        WritePos() == Wrap(old(WritePos()) + rBits, Capacity()) &&
        OrInto(old(buffer[..]), buffer[..], old(WritePos()), BitsFrom(buf[..], bByteOffset * 8 + bBitOffset, rBits))
    {
      ret := BitBufferCopy(buffer, buf, wByteOffset, wBitOffset, bufferSize,
                           bByteOffset, bBitOffset, bufSize, rBits);
      if ret.Err? {
        return;
      }
      ProduceBits(ret.value);
    }

    /**
     * The counter update after a chunk is written: the write cursor moves on
     * by `n` bits, back to byte 0 when it reaches the end of the ring, and
     * the count grows by `n`.
     */
    method ProduceBits(n: nat)
      requires Valid() && buffer != null
      requires writtenBits + n <= Capacity() && WritePos() + n <= Capacity()
      modifies this`wByteOffset, this`wBitOffset, this`writtenBits
      ensures Valid()
      ensures writtenBits == old(writtenBits) + n
      ensures WritePos() == Wrap(old(WritePos()) + n, Capacity())
    {
      var wNext := Advance(wByteOffset, wBitOffset, n);
      wByteOffset, wBitOffset := wNext.0, wNext.1;
      if wByteOffset == bufferSize {
        // the bit offset is already 0 here; the C code clears the byte offset twice
        wByteOffset := 0;
        wByteOffset := 0;
      }
      WrapTwice(ReadPos(), writtenBits, n, Capacity());
      writtenBits := writtenBits + n;
    }

    /**
     * The write loop of bit_queue_write_bits, run once its checks have
     * passed: ORs the first `bitCount` bits of `buf` into the ring from the
     * write cursor on. The copy cannot wrap round the ring, so the first
     * chunk either takes all the bits or fails with EMSGSIZE.
     */
    method WriteQueued(buf: array<bv8>, bufSize: nat, bitCount: nat) returns (r: Outcome)
      requires Valid() && buffer != null && buf != buffer && bufSize <= buf.Length
      requires 0 < bitCount <= bufSize * 8 && writtenBits + bitCount <= Capacity()
      modifies this`wByteOffset, this`wBitOffset, this`writtenBits, buffer
      ensures Valid()
      ensures r == (if old(WritePos()) + bitCount > Capacity() then Err(EMsgSize) else Ok(bitCount))
      ensures r.Err? ==> unchanged(this) && buffer[..] == old(buffer[..])
      ensures r.Ok? ==>
        writtenBits == old(writtenBits) + bitCount &&
        WritePos() == Wrap(old(WritePos()) + bitCount, Capacity()) &&
        OrInto(old(buffer[..]), buffer[..], old(WritePos()), BitsFrom(buf[..], 0, bitCount))
    {
      ghost var ring := buffer[..];
      ghost var cap, held, wpos := Capacity(), writtenBits, WritePos();
      var rBits: nat := bitCount;
      var bBitOffset: nat, bByteOffset: nat := 0, 0;
      var ret: Outcome := Err(EInval);
      // a do-while in the C code; `bitCount` is positive, so the first test passes
      while rBits > 0
        invariant Valid()
        invariant rBits == bitCount ==>
          buffer[..] == ring && unchanged(this) && bByteOffset == 0 && bBitOffset == 0
        invariant rBits < bitCount ==>
          rBits == 0 && ret.Ok? && wpos + bitCount <= cap &&
          writtenBits == held + bitCount && WritePos() == Wrap(wpos + bitCount, cap) &&
          OrInto(ring, buffer[..], wpos, BitsFrom(buf[..], 0, bitCount))
        decreases rBits
      {
        ret := WriteChunk(buf, bufSize, bByteOffset, bBitOffset, rBits);
        if ret.Err? {
          break;
        }
        // update the buffer counters
        var bNext := Advance(bByteOffset, bBitOffset, ret.value);
        bByteOffset, bBitOffset := bNext.0, bNext.1;
        rBits := rBits - ret.value;
      }
      if ret.Ok? {
        ret := Ok(bitCount);
      }
      return ret;
    }

    /**
     * bit_queue_write_bits: appends the first `bitCount` bits of `buf` to
     * the queue, ORing each over the stale bit at its place in the ring.
     *
     * Fails with EINVAL for a missing buffer, a zero count, a count larger
     * than `buf` holds, or a released queue; then with EMSGSIZE for a count
     * larger than the ring; then with EAGAIN when the free space is smaller
     * than the count. A write cannot wrap: when the bits would run past the
     * end of the ring it fails with EMSGSIZE, free space or not. A failed
     * write changes nothing.
     */
    method WriteBits(buf: array?<bv8>, bufSize: nat, bitCount: nat) returns (r: Outcome)
      requires Valid()
      requires buf != null ==> bufSize <= buf.Length && buf != buffer
      modifies this`wByteOffset, this`wBitOffset, this`writtenBits, buffer
      ensures Valid()
      ensures buf == null || bitCount == 0 || bufSize * 8 < bitCount || buffer == null ==> r == Err(EInval)
      ensures buf != null && bitCount != 0 && bufSize * 8 >= bitCount && buffer != null ==>
        r == (if bitCount > Capacity() then Err(EMsgSize)
              else if |old(Contents())| + bitCount > Capacity() then Err(EAgain)
              else if old(WritePos()) + bitCount > Capacity() then Err(EMsgSize)
              else Ok(bitCount))
      ensures r.Err? ==> unchanged(this) && (buffer != null ==> buffer[..] == old(buffer[..]))
      ensures r.Ok? ==>
        buffer != null && buf != null &&
        writtenBits == old(writtenBits) + bitCount &&
        WritePos() == Wrap(old(WritePos()) + bitCount, Capacity()) &&
        OrInto(old(buffer[..]), buffer[..], old(WritePos()), BitsFrom(buf[..], 0, bitCount)) &&
        Contents() == old(Contents()) +
                      OrBits(BitsFrom(old(buffer[..]), old(WritePos()), bitCount), BitsFrom(buf[..], 0, bitCount))
    {
      if buf == null || bitCount == 0 || bufSize * BitsInByte < bitCount {
        return Err(EInval);
      }
      if buffer == null {
        return Err(EInval);
      }
      if bitCount > bufferSize * BitsInByte {
        return Err(EMsgSize);
      }
      if !HasSpace(bitCount) {
        return Err(EAgain);
      }
      ghost var ring, cap, start, held := buffer[..], Capacity(), ReadPos(), writtenBits;
      r := WriteQueued(buf, bufSize, bitCount);
      if r.Ok? {
        // the new bits go right behind the held ones
        ghost var bits := BitsFrom(buf[..], 0, bitCount);
        assert Capacity() == cap && ReadPos() == start;
        assert 0 < cap <= |ring| * 8 && start < cap && held + |bits| <= cap;
        assert Wrap(start + held, cap) + |bits| <= cap;
        assert Wrap(start + held, cap) == old(WritePos());
        assert OrInto(ring, buffer[..], Wrap(start + held, cap), bits);
        CircularAppend(ring, buffer[..], cap, start, held, bits);
      }
    }

    /**
     * bit_queue_destroy: releases a live queue, and reports whether its
     * buffer is released with it (when the queue owns it); fails with EINVAL
     * on a queue already released.
     */
    method Destroy() returns (r: Outcome, freesBuffer: bool)
      requires Valid()
      modifies this
      ensures Valid() && buffer == null
      ensures old(buffer) == null ==> r == Err(EInval) && !freesBuffer
      ensures old(buffer) != null ==> r == Ok(0) && freesBuffer == old(freeBuff)
      ensures bufferSize == old(bufferSize) && freeBuff == old(freeBuff) && writtenBits == old(writtenBits)
      ensures rByteOffset == old(rByteOffset) && rBitOffset == old(rBitOffset)
      ensures wByteOffset == old(wByteOffset) && wBitOffset == old(wBitOffset)
    {
      if buffer == null {
        return Err(EInval), false;
      }
      freesBuffer := freeBuff;
      buffer := null;
      r := Ok(0);
    }
  }
}
