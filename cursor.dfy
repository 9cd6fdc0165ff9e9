/**
 * Cursor arithmetic of the read and write loops: after a copy of `n` bits a
 * (byte, bit) cursor moves on by `n` bit positions.
 *
 * In the C code the bit half of each cursor is a `uint8_t`, and the sum
 * `bit_offset + ret_val` is stored in it before it is split into bytes and
 * bits, so it is cut to 8 bits. `AdvanceAsWritten` models that;
 * `Advance` is the evidently intended update, which the rest of the model
 * uses.
 */
module Cursors {
  import opened Bits

  /** A cursor moved on by `n` bits, without any truncation. */
  function Advance(byteOffset: nat, bitOffset: nat, n: nat): (c: (nat, nat))
    requires bitOffset < 8
    ensures c.1 < 8
    ensures c.0 * 8 + c.1 == byteOffset * 8 + bitOffset + n
  {
    var bits := bitOffset + n;
    (byteOffset + bits / BitsInByte, bits % BitsInByte)
  }

  /**
   * The cursor update as the C code computes it: the bit half of the
   * cursor is a `uint8_t`, so `bitOffset + n` wraps modulo 256 before it is
   * split.
   */
  function AdvanceAsWritten(byteOffset: nat, bitOffset: nat, n: nat): (c: (nat, nat))
    requires bitOffset < 8
    ensures c.1 < 8
    ensures c.0 * 8 + c.1 == byteOffset * 8 + (bitOffset + n) % 256
  {
    var bits := (bitOffset + n) % 256;
    (byteOffset + bits / BitsInByte, bits % BitsInByte)
  }

  /** For steps of at most 248 bits the 8-bit cursor does not wrap and both updates agree. */
  lemma AdvanceAsWrittenAgrees(byteOffset: nat, bitOffset: nat, n: nat)
    requires bitOffset < 8 && n <= 248
    ensures AdvanceAsWritten(byteOffset, bitOffset, n) == Advance(byteOffset, bitOffset, n)
  {
  }

  /**
   * A copy of 256 bits from cursor (0, 0), as one write of 256 bits into a
   * 64-byte queue makes, leaves the 8-bit cursor at (0, 0) instead of
   * moving it to byte 32.
   */
  lemma AdvanceAsWrittenLosesBits()
    ensures AdvanceAsWritten(0, 0, 256) == (0, 0)
    ensures Advance(0, 0, 256) == (32, 0)
  {
  }
}
