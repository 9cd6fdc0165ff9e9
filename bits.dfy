/**
 * Bit addressing over byte buffers, the two mask macros of bit_queue.c and the
 * single shift-and-mask statement that moves one chunk of bits from a source
 * byte into a destination byte.
 *
 * Bytes are `bv8`. Bits are numbered least-significant first: global bit `i`
 * of a buffer is bit `i % 8` of byte `i / 8`.
 *
 * Shift amounts inside the byte expressions are `bv8` values. Small counts
 * are turned into such values by the recursive `Bv8` below rather than by a
 * cast, and a handful of lemmas state how `Bv8` behaves under addition,
 * subtraction and comparison; `Bv8Is` shows it agrees with `k as bv8`.
 */
module Bits {

  /** Number of bits in a byte (BITS_IN_BYTE). */
  const BitsInByte: nat := 8

  /** The smaller of two counts. */
  function Min(a: nat, b: nat): nat
  {
    if a <= b then a else b
  }

  // ---------------------------------------------------------------------
  // Small counts as bit-vectors
  // ---------------------------------------------------------------------

  /** The count `k` (below 16) as an 8-bit value. */
  function Bv8(k: nat): bv8
    requires k < 16
  {
    if k == 0 then 0 else Bv8(k - 1) + 1
  }

  /** `Bv8` is the ordinary conversion of a small count. */
  lemma Bv8Is(k: nat)
    requires k < 16
    ensures Bv8(k) == k as bv8
  {
    if k == 0 {
    } else if k == 1 { assert Bv8(1) == 1;
    } else if k == 2 { assert Bv8(2) == 2;
    } else if k == 3 { assert Bv8(3) == 3;
    } else if k == 4 { assert Bv8(4) == 4;
    } else if k == 5 { assert Bv8(5) == 5;
    } else if k == 6 { assert Bv8(6) == 6;
    } else if k == 7 { assert Bv8(7) == 7;
    } else if k == 8 { assert Bv8(8) == 8;
    } else if k == 9 { assert Bv8(9) == 9;
    } else if k == 10 { assert Bv8(10) == 10;
    } else if k == 11 { assert Bv8(11) == 11;
    } else if k == 12 { assert Bv8(12) == 12;
    } else if k == 13 { assert Bv8(13) == 13;
    } else if k == 14 { assert Bv8(14) == 14;
    } else { assert Bv8(15) == 15; }
  }

  /** `Bv8` turns the sum `c = a + b` into a bit-vector sum. */
  lemma {:induction false} Bv8Sum(a: nat, b: nat, c: nat)
    requires c == a + b && c < 16
    ensures Bv8(c) == Bv8(a) + Bv8(b)
  {
    if b > 0 {
      Bv8Sum(a, b - 1, c - 1);
      AddOneAssoc(Bv8(a), Bv8(b - 1));
    }
  }

  lemma AddOneAssoc(x: bv8, y: bv8)
    ensures (x + y) + 1 == x + (y + 1)
  {
  }

  /** `Bv8` turns the difference `c = a - b` into a bit-vector difference. */
  lemma Bv8Diff(a: nat, b: nat, c: nat)
    requires c + b == a && a < 16
    ensures Bv8(c) == Bv8(a) - Bv8(b)
  {
    Bv8Sum(c, b, a);
  }

  lemma Bv8Le(a: nat, b: nat)
    requires a < 16 && b < 16
    ensures (a <= b) == (Bv8(a) <= Bv8(b))
  {
    Bv8Is(a);
    Bv8Is(b);
  }

  lemma Bv8Bound(k: nat)
    requires k < 16
    ensures k < 8 ==> Bv8(k) < 8
    ensures k <= 8 ==> Bv8(k) <= 8
  {
    Bv8Le(k, 7);
    Bv8Le(k, 8);
    assert Bv8(7) == 7 && Bv8(8) == 8;
  }

  // ---------------------------------------------------------------------
  // Bits of a byte, and the mask macros
  // ---------------------------------------------------------------------

  /** Bit `k` of byte `b`; false for positions outside the byte. */
  predicate BitOf(b: bv8, k: bv8)
  {
    k < 8 && (b >> k) & 1 == 1
  }

  /** Two bytes with the same eight bits are equal. */
  lemma ByteExt(x: bv8, y: bv8)
    requires forall k: bv8 :: k < 8 ==> BitOf(x, k) == BitOf(y, k)
    ensures x == y
  {
    assert BitOf(x, 0) == BitOf(y, 0);
    assert BitOf(x, 1) == BitOf(y, 1);
    assert BitOf(x, 2) == BitOf(y, 2);
    assert BitOf(x, 3) == BitOf(y, 3);
    assert BitOf(x, 4) == BitOf(y, 4);
    assert BitOf(x, 5) == BitOf(y, 5);
    assert BitOf(x, 6) == BitOf(y, 6);
    assert BitOf(x, 7) == BitOf(y, 7);
  }

  /**
   * CREATE_BYTE_MASK: the byte mask shifted left by `bitOffset`, cut back to
   * a byte. Its set bits are exactly the positions from `bitOffset` up.
   */
  function CreateByteMask(bitOffset: bv8): bv8
    requires bitOffset <= 8
  {
    0xff << bitOffset
  }

  /** The set bits of CREATE_BYTE_MASK are exactly the positions from `bitOffset` up. */
  lemma CreateByteMaskBits(bitOffset: bv8, k: bv8)
    requires bitOffset <= 8 && k < 8
    ensures BitOf(CreateByteMask(bitOffset), k) <==> bitOffset <= k
  {
  }

  /**
   * CREATE_BYTE_MASK_LSB: the same mask shifted back down, so its set bits
   * are the lowest `8 - bitOffset` positions.
   */
  function CreateByteMaskLsb(bitOffset: bv8): bv8
    requires bitOffset <= 8
  {
    CreateByteMask(bitOffset) >> bitOffset
  }

  /** The set bits of CREATE_BYTE_MASK_LSB are exactly the lowest `8 - bitOffset` positions. */
  lemma CreateByteMaskLsbBits(bitOffset: bv8, k: bv8)
    requires bitOffset <= 8 && k < 8
    ensures BitOf(CreateByteMaskLsb(bitOffset), k) <==> k < 8 - bitOffset
  {
  }

  // ---------------------------------------------------------------------
  // One chunk of the copy loop
  // ---------------------------------------------------------------------

  /**
   * The chunk statement of the copy loop: take the source bits selected by
   * the LSB mask of `offsetBitCount`, moved up to `srcBit`, bring them down
   * to position 0, lift them to `dstBit`, and OR them into the destination.
   */
  function OrChunkBv(d: bv8, s: bv8, srcBit: bv8, dstBit: bv8, offsetBitCount: bv8): bv8
    requires offsetBitCount <= 8 && srcBit < 8 && dstBit < 8
  {
    d | (((s & (CreateByteMaskLsb(offsetBitCount) << srcBit)) >> srcBit) << dstBit)
  }

  /** The chunk statement with the offsets and the count given as counts. */
  function OrChunk(d: bv8, s: bv8, srcBit: nat, dstBit: nat, offsetBitCount: nat): bv8
    requires offsetBitCount <= 8 && srcBit < 8 && dstBit < 8
  {
    Bv8Bound(srcBit);
    Bv8Bound(dstBit);
    Bv8Bound(offsetBitCount);
    OrChunkBv(d, s, Bv8(srcBit), Bv8(dstBit), Bv8(offsetBitCount))
  }

  /** Bit-level meaning of the chunk statement, on bit-vector offsets. */
  lemma ChunkBitsBv(d: bv8, s: bv8, sb: bv8, db: bv8, ob: bv8, jb: bv8, kb: bv8)
    requires ob < 8 && sb < 8 && db < 8 && jb < 8
    requires sb + (8 - ob) <= 8 && db + (8 - ob) <= 8
    requires db <= jb < db + (8 - ob) ==> kb + db == sb + jb && kb < 8
    ensures BitOf(OrChunkBv(d, s, sb, db, ob), jb) ==
            (BitOf(d, jb) || (db <= jb < db + (8 - ob) && BitOf(s, kb)))
  {
  }

  /** The complement `8 - n` of a chunk length, as a bit-vector. */
  lemma ComplementCast(n: nat)
    requires 1 <= n <= 8
    ensures Bv8(8 - n) < 8 && 8 - Bv8(8 - n) == Bv8(n)
  {
    Bv8Diff(8, n, 8 - n);
    Bv8Le(8 - n, 7);
    assert Bv8(7) == 7 && Bv8(8) == 8;
  }

  /** An offset and a chunk length that fit in a byte still fit as bit-vectors. */
  lemma FitsCast(offset: nat, n: nat)
    requires offset + n <= 8
    ensures Bv8(offset) + Bv8(n) == Bv8(offset + n) && Bv8(offset + n) <= 8
    ensures Bv8(offset) <= 8 && Bv8(n) <= 8
  {
    Bv8Sum(offset, n, offset + n);
    Bv8Le(offset + n, 8);
    Bv8Le(offset, 8);
    Bv8Le(n, 8);
    assert Bv8(8) == 8;
  }

  /** Membership of `j` in the chunk range `[dstBit, dstBit + n)`, as bit-vectors. */
  lemma RangeCast(dstBit: nat, n: nat, j: nat)
    requires dstBit + n <= 8 && j < 8
    ensures (Bv8(dstBit) <= Bv8(j) < Bv8(dstBit + n)) == (dstBit <= j < dstBit + n)
  {
    Bv8Le(dstBit, j);
    Bv8Le(dstBit + n, j);
  }

  /** The chunk's offsets and range as bit-vectors, for a chunk of `n` bits. */
  lemma ChunkCasts(srcBit: nat, dstBit: nat, n: nat, j: nat)
    requires 1 <= n && srcBit + n <= 8 && dstBit + n <= 8 && j < 8
    ensures Bv8(8 - n) < 8 && Bv8(srcBit) < 8 && Bv8(dstBit) < 8 && Bv8(j) < 8
    ensures Bv8(srcBit) + (8 - Bv8(8 - n)) <= 8 && Bv8(dstBit) + (8 - Bv8(8 - n)) <= 8
    ensures (Bv8(dstBit) <= Bv8(j) < Bv8(dstBit) + (8 - Bv8(8 - n))) == (dstBit <= j < dstBit + n)
  {
    ComplementCast(n);
    FitsCast(srcBit, n);
    FitsCast(dstBit, n);
    RangeCast(dstBit, n, j);
    Bv8Bound(srcBit);
    Bv8Bound(dstBit);
    Bv8Bound(j);
  }

  /** The source position `k` matching destination position `j` of a chunk, as bit-vectors. */
  lemma ChunkSourceCast(srcBit: nat, dstBit: nat, j: nat, k: nat)
    requires k + dstBit == srcBit + j && k < 8 && j < 8 && srcBit < 8
    ensures Bv8(k) + Bv8(dstBit) == Bv8(srcBit) + Bv8(j) && Bv8(k) < 8
  {
    var x := srcBit + j;
    Bv8Sum(k, dstBit, x);
    Bv8Sum(srcBit, j, x);
    Bv8Bound(k);
  }

  /**
   * Bit-level meaning of the chunk statement: with a chunk of `n` bits that
   * fits in both bytes, destination bit `j` becomes its old value, ORed with
   * source bit `srcBit + (j - dstBit)` when `j` lies in the chunk's range
   * `[dstBit, dstBit + n)`; every other bit of the destination is kept.
   */
  lemma ChunkBits(d: bv8, s: bv8, srcBit: nat, dstBit: nat, n: nat, j: nat)
    requires 1 <= n && srcBit + n <= 8 && dstBit + n <= 8 && j < 8
    ensures BitOf(OrChunk(d, s, srcBit, dstBit, 8 - n), Bv8(j)) ==
            (BitOf(d, Bv8(j)) || (dstBit <= j < dstBit + n && BitOf(s, Bv8(srcBit + j - dstBit))))
  {
    ChunkCasts(srcBit, dstBit, n, j);
    if dstBit <= j < dstBit + n {
      ChunkSourceCast(srcBit, dstBit, j, srcBit + j - dstBit);
      ChunkBitsBv(d, s, Bv8(srcBit), Bv8(dstBit), Bv8(8 - n), Bv8(j), Bv8(srcBit + j - dstBit));
    } else {
      ChunkBitsBv(d, s, Bv8(srcBit), Bv8(dstBit), Bv8(8 - n), Bv8(j), 0);
    }
  }

  // ---------------------------------------------------------------------
  // Bits of a buffer
  // ---------------------------------------------------------------------

  /** Global bit `i` of a byte buffer: bit `i % 8` of byte `i / 8`. */
  predicate Bit(buf: seq<bv8>, i: nat)
    requires i < |buf| * 8
  {
    BitOf(buf[i / 8], Bv8(i % 8))
  }

  /** `Bit` is the shift-and-mask reading `(buf[i/8] >> (i%8)) & 1` of the source. */
  lemma BitIsShiftAndMask(buf: seq<bv8>, i: nat)
    requires i < |buf| * 8
    ensures Bit(buf, i) == ((buf[i / 8] >> ((i % 8) as bv8)) & 1 == 1)
  {
    Bv8Is(i % 8);
  }

  /** The `n` bits of `buf` starting at global bit `start`. */
  function BitsFrom(buf: seq<bv8>, start: nat, n: nat): (bits: seq<bool>)
    requires start + n <= |buf| * 8
    ensures |bits| == n
  {
    seq(n, i requires 0 <= i < n => Bit(buf, start + i))
  }

  /** Pointwise OR of two equally long bit strings. */
  function OrBits(a: seq<bool>, b: seq<bool>): (r: seq<bool>)
    requires |a| == |b|
    ensures |r| == |a|
  {
    seq(|a|, i requires 0 <= i < |a| => a[i] || b[i])
  }

  /**
   * `after` is `before` with the bit string `bits` ORed in from global bit
   * `pos` on: every bit in that range is its old value OR the matching bit,
   * every other bit is unchanged.
   */
  ghost predicate OrInto(before: seq<bv8>, after: seq<bv8>, pos: nat, bits: seq<bool>)
  {
    |after| == |before| && pos + |bits| <= |before| * 8 &&
    forall i :: 0 <= i < |before| * 8 ==> OrAt(before, after, pos, bits, i)
  }

  /** Bit `i` of `after` is bit `i` of `before`, ORed with the matching bit of `bits` when `i` is in its range. */
  ghost predicate OrAt(before: seq<bv8>, after: seq<bv8>, pos: nat, bits: seq<bool>, i: nat)
    requires i < |before| * 8 && |after| == |before|
  {
    Bit(after, i) == (Bit(before, i) || (pos <= i < pos + |bits| && bits[i - pos]))
  }

  /** ORing nothing changes nothing. */
  lemma OrIntoNothing(buf: seq<bv8>, pos: nat)
    requires pos <= |buf| * 8
    ensures OrInto(buf, buf, pos, [])
  {
  }

  /** Bits are only ever set: the OR of a range keeps every bit that was set. */
  lemma OrIntoKeepsSetBits(before: seq<bv8>, after: seq<bv8>, pos: nat, bits: seq<bool>, i: nat)
    requires OrInto(before, after, pos, bits) && i < |before| * 8 && Bit(before, i)
    ensures Bit(after, i)
  {
    assert OrAt(before, after, pos, bits, i);
  }

  /** Over a zeroed range the ORed bits are exactly the given bits. */
  lemma OrIntoZeroed(before: seq<bv8>, after: seq<bv8>, pos: nat, bits: seq<bool>)
    requires OrInto(before, after, pos, bits)
    requires forall i :: pos <= i < pos + |bits| ==> !Bit(before, i)
    ensures BitsFrom(after, pos, |bits|) == bits
  {
    forall k | 0 <= k < |bits|
      ensures BitsFrom(after, pos, |bits|)[k] == bits[k]
    {
      assert !Bit(before, pos + k) && OrAt(before, after, pos, bits, pos + k);
    }
  }

  /** Two ORs into adjacent ranges are one OR of the concatenation. */
  lemma OrIntoCompose(a: seq<bv8>, b: seq<bv8>, c: seq<bv8>, pos: nat, x: seq<bool>, y: seq<bool>)
    requires OrInto(a, b, pos, x) && OrInto(b, c, pos + |x|, y)
    ensures OrInto(a, c, pos, x + y)
  {
    forall i | 0 <= i < |a| * 8
      ensures OrAt(a, c, pos, x + y, i)
    {
      assert OrAt(b, c, pos + |x|, y, i) && OrAt(a, b, pos, x, i);
    }
  }

  /** A run of bits read from `start` is the run of length `m` followed by the rest. */
  lemma BitsFromSplit(buf: seq<bv8>, start: nat, m: nat, n: nat)
    requires start + m + n <= |buf| * 8
    ensures BitsFrom(buf, start, m + n) == BitsFrom(buf, start, m) + BitsFrom(buf, start + m, n)
  {
  }

  /** The byte and bit offset of a global bit position. */
  lemma PositionSplit(i: nat, byteOffset: nat, bitOffset: nat)
    requires bitOffset < 8 && i == byteOffset * 8 + bitOffset
    ensures i / 8 == byteOffset && i % 8 == bitOffset
  {
  }

  /**
   * One chunk of the copy loop, on whole buffers: updating destination byte
   * `d` with the chunk statement ORs the `n` source bits starting at
   * `s*8 + srcBit` into the destination starting at `d*8 + dstBit`.
   */
  lemma ChunkStep(before: seq<bv8>, src: seq<bv8>, d: nat, dstBit: nat, s: nat, srcBit: nat, n: nat)
    requires d < |before| && s < |src|
    requires 1 <= n && dstBit + n <= 8 && srcBit + n <= 8
    ensures OrInto(before, before[d := OrChunk(before[d], src[s], srcBit, dstBit, 8 - n)],
                   d * 8 + dstBit, BitsFrom(src, s * 8 + srcBit, n))
  {
    var after := before[d := OrChunk(before[d], src[s], srcBit, dstBit, 8 - n)];
    var bits := BitsFrom(src, s * 8 + srcBit, n);
    var pos := d * 8 + dstBit;
    forall i | 0 <= i < |before| * 8
      ensures OrAt(before, after, pos, bits, i)
    {
      var j := i % 8;
      if i / 8 == d {
        PositionSplit(i, d, j);
        ChunkBits(before[d], src[s], srcBit, dstBit, n, j);
        if pos <= i < pos + n {
          var k := srcBit + j - dstBit;
          PositionSplit(s * 8 + srcBit + (i - pos), s, k);
          assert bits[i - pos] == Bit(src, s * 8 + srcBit + (i - pos));
        }
      } else {
        assert after[i / 8] == before[i / 8];
        assert !(pos <= i < pos + n);
      }
    }
  }

  /**
   * One step of the copy loop on top of the bits already copied: if `copied`
   * bits from `srcPos` have been ORed in at `dstPos`, the chunk statement
   * with `offsetBitCount` moves the next `n = 8 - offsetBitCount` bits and
   * extends that to `copied + n` bits.
   */
  lemma CopyStep(orig: seq<bv8>, before: seq<bv8>, src: seq<bv8>, dstPos: nat, srcPos: nat, copied: nat,
                 d: nat, dstBit: nat, s: nat, srcBit: nat, offsetBitCount: nat, n: nat)
    requires d < |before| && s < |src| && srcPos + copied + n <= |src| * 8
    requires offsetBitCount + n == 8 && 1 <= n && dstBit + n <= 8 && srcBit + n <= 8
    requires d * 8 + dstBit == dstPos + copied && s * 8 + srcBit == srcPos + copied
    requires OrInto(orig, before, dstPos, BitsFrom(src, srcPos, copied))
    ensures OrInto(orig, before[d := OrChunk(before[d], src[s], srcBit, dstBit, offsetBitCount)], dstPos,
                   BitsFrom(src, srcPos, copied + n))
  {
    var after := before[d := OrChunk(before[d], src[s], srcBit, dstBit, 8 - n)];
    ChunkStep(before, src, d, dstBit, s, srcBit, n);
    OrIntoCompose(orig, before, after, dstPos, BitsFrom(src, srcPos, copied), BitsFrom(src, srcPos + copied, n));
    BitsFromSplit(src, srcPos, copied, n);
  }
}
