/**
 * The demonstration program of the repository, test.c, as a method: two
 * queues over two bytes, one wrapping the caller's 16-bit `buffer`, one with
 * its own zeroed ring; the bits read back are the low bits of 0xaaaa in
 * order, least significant first.
 *
 * Integers are stored little-endian, as on the machines the program targets:
 * the 16-bit `0xaaaa` is the bytes [0xaa, 0xaa] and `res` is
 * `res[0] + 256 * res[1]`. The printing is left out; the values printed
 * become results.
 */
module Scenario {
  import opened Bits
  import opened Outcomes
  import opened Queue

  /** The value of a little-endian 16-bit integer held in two bytes. */
  function U16(bytes: seq<bv8>): (v: nat)
    requires |bytes| == 2
    ensures v < 0x1_0000
  {
    bytes[0] as nat + 256 * bytes[1] as nat
  }

  /** ORing a bit string into two zeroed bytes leaves exactly those bits set. */
  lemma OrIntoZeroPair(after: seq<bv8>, bits: seq<bool>)
    requires OrInto([0, 0], after, 0, bits)
    ensures |after| == 2
    ensures forall i :: 0 <= i < 16 ==> Bit(after, i) == (i < |bits| && bits[i])
  {
    forall i | 0 <= i < 16
      ensures Bit(after, i) == (i < |bits| && bits[i])
    {
      assert OrAt([0, 0], after, 0, bits, i);
    }
  }

  /** Bit `k` of byte `j` of a pair of bytes. */
  lemma PairBit(after: seq<bv8>, j: nat, k: bv8)
    requires |after| == 2 && j < 2 && k < 8
    ensures Bit(after, 8 * j + k as int) == BitOf(after[j], k)
  {
    Bv8Is(k as int);
  }

  /** Two bytes whose only set bits are those of `lo`, in the low byte, are [lo, 0]. */
  lemma PairFromBits(after: seq<bv8>, lo: bv8)
    requires |after| == 2
    requires forall i :: 0 <= i < 16 ==> Bit(after, i) == (i < 8 && BitOf(lo, (i % 8) as bv8))
    ensures after == [lo, 0]
  {
    forall k: bv8 | k < 8
      ensures BitOf(after[0], k) == BitOf(lo, k) && !BitOf(after[1], k)
    {
      PairBit(after, 0, k);
      PairBit(after, 1, k);
      assert (k as int % 8) as bv8 == k;
    }
    ByteExt(after[0], lo);
    ByteExt(after[1], 0);
  }

  /** The 16 bits of the bytes [0xaa, 0xaa], ORed over zeroes, least significant first. */
  lemma PatternBits(c: seq<bool>)
    requires c == OrBits(BitsFrom([0, 0], 0, 16), BitsFrom([0xaa, 0xaa], 0, 16))
    ensures |c| == 16
    ensures forall i :: 0 <= i < 16 ==> c[i] == BitOf(0xaa, (i % 8) as bv8)
  {
    forall i | 0 <= i < 16
      ensures c[i] == BitOf(0xaa, (i % 8) as bv8)
    {
      var k := i % 8;
      Bv8Is(k);
      assert c[i] == (Bit([0, 0], i) || Bit([0xaa, 0xaa], i));
      assert Bit([0, 0], i) == BitOf(0, Bv8(k)) == false;
      assert Bit([0xaa, 0xaa], i) == BitOf(0xaa, Bv8(k));
    }
  }

  /** The 8 bits of a single byte, least significant first. */
  lemma ByteBits(a: seq<bv8>)
    requires |a| == 1
    ensures forall i :: 0 <= i < 8 ==> BitsFrom(a, 0, 8)[i] == BitOf(a[0], (i % 8) as bv8)
  {
    forall i | 0 <= i < 8
      ensures BitsFrom(a, 0, 8)[i] == BitOf(a[0], (i % 8) as bv8)
    {
      Bv8Is(i % 8);
      assert BitsFrom(a, 0, 8)[i] == Bit(a, i) == BitOf(a[0], Bv8(i % 8));
    }
  }

  /** test.c:11-12: a fresh queue of two bytes, filled with the 16 bits of `src`. */
  method FilledQueue(src: array<bv8>) returns (bq: BitQueue, w: Outcome)
    requires src[..] == [0xaa, 0xaa]
    ensures fresh(bq) && fresh(bq.buffer) && bq.Valid() && bq.buffer != null && bq.freeBuff
    ensures w == Ok(16) && bq.Contents() == OrBits(BitsFrom([0, 0], 0, 16), BitsFrom([0xaa, 0xaa], 0, 16))
  {
    var q := BitQueue.BaseInit(2);
    bq := q;
    assert bq.buffer[..] == [0, 0];
    w := bq.WriteBits(src, 2, 16);
  }

  /**
   * test.c:13-17: a byte read from the full queue over `buffer` makes room
   * for the byte then written; `res` and `buffer` are zeroed in between.
   */
  method TakeAndRefill(bq: BitQueue, buffer: array<bv8>, res: array<bv8>, a: array<bv8>) returns (r1: Outcome, w1: Outcome, ring: seq<bv8>)
    requires bq.Valid() && bq.buffer == buffer && bq.bufferSize == 2 && buffer.Length == 2
    requires bq.writtenBits == 16 && bq.ReadPos() == 0 && bq.WritePos() == 0
    requires res.Length == 2 && a.Length == 1 && res != buffer && a != buffer
    modifies bq`rByteOffset, bq`rBitOffset, bq`wByteOffset, bq`wBitOffset, bq`writtenBits, buffer, res
    ensures bq.Valid() && bq.buffer == buffer && bq.bufferSize == 2 && bq.freeBuff == old(bq.freeBuff)
    ensures r1 == Ok(8) && w1 == Ok(8) && res[..] == [0, 0]
    ensures ring == buffer[..] == [a[0], 0]
  {
    // the first read ORs into `res` as the program leaves it
    r1 := bq.ReadBits(res, 2, 8);
    res[0], res[1] := 0, 0;
    buffer[0], buffer[1] := 0, 0;
    assert buffer[..] == [0, 0];
    w1 := bq.WriteBits(a, 1, 8);
    // the byte is ORed over the zeroes the program left there
    ByteBits(a[..]);
    OrIntoZeroPair(buffer[..], BitsFrom(a[..], 0, 8));
    PairFromBits(buffer[..], a[0]);
    ring := buffer[..];
  }

  /** test.c:18-19: the first 5 bits of 0xaaaa read from `bq` into a zeroed `res`. */
  method ReadFive(bq: BitQueue, res: array<bv8>) returns (r2: Outcome, m2: nat)
    requires bq.Valid() && bq.buffer != null && res != bq.buffer && res.Length == 2 && res[..] == [0, 0]
    requires bq.Contents() == OrBits(BitsFrom([0, 0], 0, 16), BitsFrom([0xaa, 0xaa], 0, 16))
    modifies bq`rByteOffset, bq`rBitOffset, bq`writtenBits, res
    ensures bq.Valid() && bq.buffer == old(bq.buffer)
    ensures bq.Contents() == old(bq.Contents())[5..]
    ensures r2 == Ok(5) && m2 == 10
  {
    ghost var pattern := bq.Contents();
    PatternBits(pattern);
    r2 := bq.ReadBits(res, 2, 5);
    OrIntoZeroPair(res[..], pattern[..5]);
    PairFromBits(res[..], 0x0a);
    m2 := U16(res[..]);
  }

  /** test.c:20-22: the sixth bit of 0xaaaa read from `bq` into a zeroed `res`. */
  method ReadSixth(bq: BitQueue, res: array<bv8>) returns (r3: Outcome, m3: nat)
    requires bq.Valid() && bq.buffer != null && res != bq.buffer && res.Length == 2 && res[..] == [0, 0]
    requires bq.Contents() == OrBits(BitsFrom([0, 0], 0, 16), BitsFrom([0xaa, 0xaa], 0, 16))[5..]
    modifies bq`rByteOffset, bq`rBitOffset, bq`writtenBits, res
    ensures bq.Valid() && bq.buffer == old(bq.buffer)
    ensures r3 == Ok(1) && m3 == 1
  {
    ghost var pattern := OrBits(BitsFrom([0, 0], 0, 16), BitsFrom([0xaa, 0xaa], 0, 16));
    PatternBits(pattern);
    r3 := bq.ReadBits(res, 2, 1);
    OrIntoZeroPair(res[..], pattern[5..][..1]);
    PairFromBits(res[..], 0x01);
    m3 := U16(res[..]);
  }

  /** test.c:18-22: the next 5 bits and then 1 bit read from `bq` into a zeroed `res`. */
  method ReadBack(bq: BitQueue, res: array<bv8>) returns (r2: Outcome, m2: nat, r3: Outcome, m3: nat)
    requires bq.Valid() && bq.buffer != null && res != bq.buffer && res.Length == 2 && res[..] == [0, 0]
    requires bq.Contents() == OrBits(BitsFrom([0, 0], 0, 16), BitsFrom([0xaa, 0xaa], 0, 16))
    modifies bq`rByteOffset, bq`rBitOffset, bq`writtenBits, res
    ensures bq.Valid() && bq.buffer == old(bq.buffer)
    ensures r2 == Ok(5) && m2 == 10 && r3 == Ok(1) && m3 == 1
  {
    r2, m2 := ReadFive(bq, res);
    res[0], res[1] := 0, 0;
    assert res[..] == [0, 0];
    r3, m3 := ReadSixth(bq, res);
  }

  /**
   * test.c: writing 0xaaaa into the fresh queue and reading back 5 bits and
   * then 1 bit yields 10 (0b01010) and 1; the write of the byte 0x0a into
   * the queue over `buffer` succeeds once a byte has been read from it, and
   * since the program zeroed `buffer` first, leaves it holding 0x000a; both
   * queues are released, and only the second one releases its buffer.
   */
  method TestProgram() returns (w2: Outcome, r1: Outcome, w1: Outcome, ring1: seq<bv8>, r2: Outcome, m2: nat,
                                r3: Outcome, m3: nat, d1: Outcome, freed1: bool, d2: Outcome, freed2: bool)
    ensures w2 == Ok(16) && r1 == Ok(8) && w1 == Ok(8) && ring1 == [0x0a, 0]
    ensures r2 == Ok(5) && m2 == 10
    ensures r3 == Ok(1) && m3 == 1
    ensures d1 == Ok(0) && !freed1 && d2 == Ok(0) && freed2
  {
    var buffer := new bv8[2](_ => 0xaa);
    var a := new bv8[1](_ => 0x0a);
    var res := new bv8[2];
    var bq1 := BitQueue.Init(buffer, 2, false);
    var bq2: BitQueue;
    assert buffer[..] == [0xaa, 0xaa];
    bq2, w2 := FilledQueue(buffer);
    assert a[0] == 0x0a;
    r1, w1, ring1 := TakeAndRefill(bq1, buffer, res, a);
    r2, m2, r3, m3 := ReadBack(bq2, res);
    d1, freed1 := bq1.Destroy();
    d2, freed2 := bq2.Destroy();
  }
}
