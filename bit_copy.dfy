/**
 * The copy primitive of the bit queue: `bit_queue_bit_buffer_copy` copies up
 * to `bitCount` bits from a source byte buffer into a destination byte
 * buffer, each side starting at its own (byte, bit) offset. The copied bits
 * are ORed into the destination; nothing is ever cleared.
 */
module BitCopy {
  import opened Bits
  import opened Outcomes

  /**
   * The `offset_bit_count` chosen for one step of the copy loop, for `rBits`
   * bits still to copy at the given bit offsets. The step then moves
   * `8 - offset_bit_count` bits: as many as are left, but never past the end
   * of the current byte on either side.
   */
  function OffsetBitCount(rBits: nat, dstBitOffset: nat, srcBitOffset: nat): (offsetBitCount: nat)
    requires rBits > 0 && dstBitOffset < 8 && srcBitOffset < 8
    ensures offsetBitCount < 8
    ensures 8 - offsetBitCount == Min(rBits, Min(8 - dstBitOffset, 8 - srcBitOffset))
  {
    if rBits + dstBitOffset <= BitsInByte && rBits <= BitsInByte - srcBitOffset then
      BitsInByte - rBits
    else if dstBitOffset >= srcBitOffset then
      dstBitOffset
    else
      srcBitOffset
  }

  /** The argument checks of the copy that fail with EINVAL, once both buffers are present. */
  predicate CopyArgsInvalid(dstByteOffset: nat, dstBitOffset: nat, dstBuffSize: nat,
                            srcByteOffset: nat, srcBitOffset: nat, srcBuffSize: nat, bitCount: nat)
  {
    bitCount == 0 || dstBuffSize < dstByteOffset || srcBuffSize < srcByteOffset ||
    dstBitOffset >= BitsInByte || srcBitOffset >= BitsInByte || srcBuffSize * BitsInByte < bitCount
  }

  /**
   * bit_queue_bit_buffer_copy. Fails with EINVAL on a missing buffer or an
   * invalid argument, with EMSGSIZE when the destination cannot hold
   * `bitCount` bits from its offset on; in both cases the destination is
   * untouched. Otherwise it copies as many of the `bitCount` bits as the
   * source still holds from its offset on, and returns that number.
   *
   * The caller guarantees that the size arithmetic of the C code does not
   * wrap: a destination offset at the very end of its buffer has bit offset
   * 0, and the source offset lies inside the source.
   */
  method BitBufferCopy(dst: array?<bv8>, src: array?<bv8>,
                       dstByteOffset: nat, dstBitOffset: nat, dstBuffSize: nat,
                       srcByteOffset: nat, srcBitOffset: nat, srcBuffSize: nat,
                       bitCount: nat) returns (r: Outcome)
    requires dst != null ==> dstBuffSize <= dst.Length
    requires src != null ==> srcBuffSize <= src.Length
    requires dst != src
    requires dst != null && src != null &&
             !CopyArgsInvalid(dstByteOffset, dstBitOffset, dstBuffSize, srcByteOffset, srcBitOffset, srcBuffSize, bitCount) ==>
             (dstByteOffset < dstBuffSize || dstBitOffset == 0) && srcByteOffset < srcBuffSize
    modifies dst
    ensures dst == null || src == null ||
            CopyArgsInvalid(dstByteOffset, dstBitOffset, dstBuffSize, srcByteOffset, srcBitOffset, srcBuffSize, bitCount)
            ==> r == Err(EInval)
    ensures dst != null && src != null &&
            !CopyArgsInvalid(dstByteOffset, dstBitOffset, dstBuffSize, srcByteOffset, srcBitOffset, srcBuffSize, bitCount)
            ==> r == (if dstBuffSize * 8 - (dstByteOffset * 8 + dstBitOffset) < bitCount then Err(EMsgSize)
                      else Ok(Min(bitCount, srcBuffSize * 8 - (srcByteOffset * 8 + srcBitOffset))))
    ensures r.Err? && dst != null ==> dst[..] == old(dst[..])
    ensures r.Ok? ==> dst != null && src != null && 0 < r.value <= bitCount
    ensures r.Ok? ==> OrInto(old(dst[..]), dst[..], dstByteOffset * 8 + dstBitOffset,
                             BitsFrom(src[..], srcByteOffset * 8 + srcBitOffset, r.value))
  {
    if dst == null || src == null {
      return Err(EInval);
    }
    if CopyArgsInvalid(dstByteOffset, dstBitOffset, dstBuffSize, srcByteOffset, srcBitOffset, srcBuffSize, bitCount) {
      return Err(EInval);
    }
    if (dstBuffSize - dstByteOffset) * BitsInByte - dstBitOffset < bitCount {
      return Err(EMsgSize);
    }
    var count: nat := bitCount;
    if count > (srcBuffSize - srcByteOffset) * BitsInByte - srcBitOffset {
      // the source holds fewer bits than requested: copy what it has
      count := (srcBuffSize - srcByteOffset) * BitsInByte - srcBitOffset;
    }
    CopyChunks(dst, src, dstByteOffset, dstBitOffset, srcByteOffset, srcBitOffset, count);
    return Ok(count);
  }

  /**
   * The chunk loop of bit_queue_bit_buffer_copy, run once its checks have
   * passed: ORs the `count` source bits from `srcByteOffset*8 + srcBitOffset`
   * into the destination from `dstByteOffset*8 + dstBitOffset` on, one chunk
   * per step, where no chunk crosses a byte boundary on either side.
   */
  method CopyChunks(dst: array<bv8>, src: array<bv8>,
                    dstByteOffset: nat, dstBitOffset: nat,
                    srcByteOffset: nat, srcBitOffset: nat, count: nat)
    requires dst != src && 0 < count && dstBitOffset < 8 && srcBitOffset < 8
    requires dstByteOffset * 8 + dstBitOffset + count <= dst.Length * 8
    requires srcByteOffset * 8 + srcBitOffset + count <= src.Length * 8
    modifies dst
    ensures OrInto(old(dst[..]), dst[..], dstByteOffset * 8 + dstBitOffset,
                   BitsFrom(src[..], srcByteOffset * 8 + srcBitOffset, count))
  {
    ghost var dstPos, srcPos := dstByteOffset * 8 + dstBitOffset, srcByteOffset * 8 + srcBitOffset;
    ghost var srcBits := src[..];
    ghost var copied: nat := 0;
    var dByte: nat, dBit: nat, sByte: nat, sBit: nat := dstByteOffset, dstBitOffset, srcByteOffset, srcBitOffset;
    var rBits: nat := count;
    // a do-while in the C code; `count` is positive, so the first test passes
    while rBits > 0
      invariant copied + rBits == count
      invariant dBit < 8 && sBit < 8
      invariant dByte * 8 + dBit == dstPos + copied
      invariant sByte * 8 + sBit == srcPos + copied
      invariant src[..] == srcBits
      invariant OrInto(old(dst[..]), dst[..], dstPos, BitsFrom(srcBits, srcPos, copied))
      decreases rBits
    {
      var offsetBitCount := OffsetBitCount(rBits, dBit, sBit);
      var n: nat := BitsInByte - offsetBitCount;
      ghost var before := dst[..];
      CopyStep(old(dst[..]), before, srcBits, dstPos, srcPos, copied, dByte, dBit, sByte, sBit, offsetBitCount, n);
      dst[dByte] := OrChunk(dst[dByte], src[sByte], sBit, dBit, offsetBitCount);
      assert dst[..] == before[dByte := OrChunk(before[dByte], srcBits[sByte], sBit, dBit, offsetBitCount)];
      sBit := sBit + n;
      dBit := dBit + n;
      rBits := rBits - n;
      copied := copied + n;
      if sBit == BitsInByte {
        sBit := 0;
        sByte := sByte + 1;
      }
      if dBit == BitsInByte {
        dBit := 0;
        dByte := dByte + 1;
      }
    }
  }
}
