# bit_queue in Dafny

A model of `bit_queue`, a bit-granular circular FIFO kept in a byte
buffer. Callers write (enqueue) and read (dequeue) any number of bits,
regardless of byte alignment. The queue keeps a read cursor, a write
cursor (each a (byte, bit) pair) and a count of the bits it holds. Bits are
numbered least significant first: bit `i` of a buffer is
`(buf[i / 8] >> (i % 8)) & 1`.

Two layers, each a module:

- `BitCopy` models `bit_queue_bit_buffer_copy`, the copy primitive. It
  validates its arguments (EINVAL), refuses a destination that is too
  short (EMSGSIZE), and silently shortens the copy when the source runs out.
  It then copies in chunks that never cross a byte on either side, ORing
  each chunk into the destination with the shift-and-mask of the C code
  (`Bits.OrChunk`). The copy's whole effect is stated by `Bits.OrInto`:
  each destination bit in range becomes its old value OR the matching source
  bit, and every other bit is unchanged. No bit is ever cleared.
- `Queue.BitQueue` is the queue object. Its fields are the C struct's,
  updated in place by its methods. `Contents()` is the queued bits, oldest
  first, read round the ring from the read cursor. `Valid()` is the
  invariant kept by every operation: both cursors are on the ring, the count
  is at most the capacity, and the write cursor is `writtenBits` positions
  after the read cursor, round the ring. A released queue is one whose
  buffer is null.

Supporting modules:

- `Bits` holds the bit-level view and the mask macros.
- `Circular` holds the ring arithmetic and the circular contents.
- `Cursors` holds the cursor update.
- `Outcomes` holds the result type, which replaces `-1` plus `errno`.
- `Scenario` holds the demonstration program `test.c`.

Two behaviours of the code are kept as written:

- A write cannot wrap within one call. The ring is the copy's
  destination, so a write that would run past the end of the ring fails with
  EMSGSIZE even when there is space. A read wraps, because a copy from the
  ring is shortened at its end and the loop goes round again.
- Writes only OR. Bits written on a second lap are ORed over whatever the
  ring held, and reads do not clear what they take. `test.c` zeroes the
  borrowed buffer before writing into it again, and
  `Scenario.TakeAndRefill` shows the effect.

The field comment says `buffer_size` is in bits, but the code uses it as a
size in bytes; the model follows the code. The duplicated `w_byte_offset = 0` in the write's wrap is harmless, because
the bit offset is already 0 there; `ProduceBits` keeps the duplicate.

## Model

| member | source | states |
|---|---|---|
| `Bits.CreateByteMaskBits` | bit_queue.c:31 | `CREATE_BYTE_MASK(o)` has exactly the bits `o..7` set |
| `Bits.CreateByteMaskLsbBits` | bit_queue.c:37 | `CREATE_BYTE_MASK_LSB(o)` has exactly the low `8 - o` bits set |
| `Bits.BitIsShiftAndMask` | bit_queue.c:359 | the bit numbering is least significant first: bit `i` is `(buf[i/8] >> i%8) & 1` |
| `Bits.ChunkBitsBv` | bit_queue.c:359 | one chunk statement, on bytes: destination bit `j` in the chunk becomes its old value OR source bit `j - dstBit + srcBit`; bits outside the chunk keep their value |
| `Bits.ChunkBits` | bit_queue.c:359 | the same per-bit effect of one chunk, for cursor offsets given as naturals |
| `Bits.ChunkStep` | bit_queue.c:359 | one chunk ORs exactly `n` source bits into the destination buffer at the destination cursor and changes no other bit |
| `Bits.CopyStep` | bit_queue.c:339-377 | one loop step extends the bits ORed in so far by the next `n` source bits |
| `Bits.OrIntoKeepsSetBits` | bit_queue.c:359 | a copy never clears a destination bit |
| `Bits.OrIntoZeroed` | bit_queue.c:359 | over a zeroed destination range, the copied bits equal the source bits |
| `Bits.OrIntoCompose` | bit_queue.c:339-377 | two copies at adjacent positions are one copy of the concatenated bits |
| `BitCopy.OffsetBitCount` | bit_queue.c:341-357 | each step moves `min(rBits, 8 - dstBit, 8 - srcBit)` bits: at least 1, at most `rBits`, never past a byte boundary on either side |
| `BitCopy.CopyChunks` | bit_queue.c:337-377 | the chunk loop ORs the `count` source bits from the source cursor into the destination from the destination cursor, and changes nothing else |
| `BitCopy.BitBufferCopy` | bit_queue.c:309-382 | EINVAL for a null buffer or an invalid argument; then EMSGSIZE when fewer than `bitCount` destination bits remain; both leave the destination unchanged. Otherwise it returns `min(bitCount, source bits left)` and ORs exactly those bits in |
| `Cursors.Advance` | bit_queue.c:193-195 | the cursor update (corrected, see Findings) moves the cursor on by exactly `n` bit positions and keeps the bit offset below 8 |
| `Cursors.AdvanceAsWritten` | bit_queue.c:198-200 | the update as written moves the cursor by `(bit + n) mod 256` positions, because the bit offset is a `uint8_t` |
| `Cursors.AdvanceAsWrittenAgrees` | bit_queue.c:263-265 | for steps of at most 248 bits the update as written equals the corrected one |
| `Cursors.AdvanceAsWrittenLosesBits` | bit_queue.c:263-265 | a 256-bit step from (0, 0) leaves the cursor as written at (0, 0) instead of (32, 0) |
| `Circular.Wrap` | bit_queue.c:201-206 | a position less than two laps round is taken back onto the ring, by at most one subtraction of the capacity |
| `Circular.WrapIsMod` | bit_queue.c:201-206 | that wrap is the position modulo the capacity |
| `Circular.CircularDrop` | bit_queue.c:197-207 | moving the read cursor on by `k` drops the oldest `k` bits of the circular contents |
| `Circular.CircularReadStep` | bit_queue.c:185-209 | one read pass appends the oldest `n` held bits, in order, to the bits delivered so far, and leaves the rest held |
| `Circular.CircularAppend` | bit_queue.c:250-274 | a write at the write cursor appends the new bits, each ORed with the stale ring bit it lands on, behind the held bits, which are unchanged |
| `Queue.BitQueue.HasSpace` | bit_queue.c:385-398 | true exactly when the queued bits plus `bitCount` fit in the ring |
| `Queue.BitQueue.HasData` | bit_queue.c:399-411 | true exactly when at least `bitCount` bits are queued |
| `Queue.BitQueue.constructor` | bit_queue.c:139-149 | a queue over the given buffer with the given size, count and ownership, with both cursors at (0, 0) as calloc leaves them |
| `Queue.BitQueue.BaseInit` | bit_queue.c:106-130 | no queue for size 0; otherwise a valid, empty queue that owns a fresh zeroed buffer, with both cursors at 0 |
| `Queue.BitQueue.Init` | bit_queue.c:132-151 | no queue for size 0 or a null buffer; otherwise a valid, full queue over the caller's buffer with the caller's ownership flag; its contents are the buffer's bits in order |
| `Queue.BitQueue.ReadChunk` | bit_queue.c:187-209 | one pass of the read loop copies `min(rBits, bits to the end of the ring)` of the oldest bits into the caller's buffer after those already delivered, and takes them off the queue |
| `Queue.BitQueue.ConsumeBits` | bit_queue.c:197-207 | the read cursor moves on by `n` round the ring, back to (0, 0) at the end, and the count drops by `n`; the invariant is kept |
| `Queue.BitQueue.ReadQueued` | bit_queue.c:180-213 | the read loop returns `bitCount` and ORs the oldest `bitCount` queued bits, in FIFO order, into the caller's buffer; the contents lose exactly those bits |
| `Queue.BitQueue.ReadBits` | bit_queue.c:153-216 | guards in the code's order: EINVAL, then EMSGSIZE, then EAGAIN, each changing nothing; on success the FIFO effect of `ReadQueued`, with the cursor moved by `bitCount` modulo the capacity |
| `Queue.BitQueue.WriteChunk` | bit_queue.c:252-273 | one pass of the write loop fails with EMSGSIZE, changing nothing, when the bits would run past the end of the ring; otherwise it ORs them in at the write cursor and moves the cursor and count on |
| `Queue.BitQueue.ProduceBits` | bit_queue.c:262-272 | the write cursor moves on by `n`, back to byte 0 at the end, and the count grows by `n`; the invariant is kept |
| `Queue.BitQueue.WriteQueued` | bit_queue.c:245-278 | the write loop succeeds in one pass exactly when the bits fit before the end of the ring, and then ORs all `bitCount` bits in at the write cursor |
| `Queue.BitQueue.WriteBits` | bit_queue.c:218-281 | guards in the code's order: EINVAL, then EMSGSIZE, then EAGAIN, then EMSGSIZE for a write past the end of the ring, each changing nothing; on success the contents grow by the new bits, each ORed with the stale ring bit beneath it |
| `Queue.BitQueue.Destroy` | bit_queue.c:283-305 | EINVAL on a released queue; otherwise the queue is released, succeeds with 0 and reports whether its buffer goes with it; the other fields are unchanged |
| `Scenario.FilledQueue` | test.c:11-12 | a fresh 2-byte queue accepts the 16 bits of 0xaaaa, which become its contents |
| `Scenario.TakeAndRefill` | test.c:13-17 | after a byte is read from the full borrowed queue, writing the byte 0x0a succeeds and, over the zeroed buffer, leaves it holding exactly that byte |
| `Scenario.ReadFive` | test.c:18-19 | the first 5 bits of 0xaaaa, read into a zeroed 16-bit integer, make 10 |
| `Scenario.ReadSixth` | test.c:20-22 | the sixth bit, read into a zeroed 16-bit integer, makes 1 |
| `Scenario.ReadBack` | test.c:18-22 | the two reads in turn give 10 and then 1 |
| `Scenario.TestProgram` | test.c:4-25 | the program's calls all succeed with the counts asked for; it reads 10 and 1; the borrowed buffer ends as 0x000a; only the second queue releases its buffer |

## Left out

- A null queue pointer (bit_queue.c:159, 224, 286, 388, 402): a method's receiver cannot be null in Dafny, so those EINVAL branches are not modelled.
- Allocation failure in the constructors (bit_queue.c:113-122, 139-142): memory is unbounded in the model.
- Freeing memory in `bit_queue_destroy`: `Destroy` reports whether the buffer is released with the queue. A second destroy of the same pointer reads freed memory in C; the model only shows the EINVAL of a released queue.
- `errno`: a global in C; here the error is the `Err` case of the result.
- Fixed-width integers other than the cursor bit offsets: `size_t` products such as `buffer_size * 8` and the `int` return value are unbounded in the model.
- `BitCopy.BitBufferCopy`: requires that the size subtractions of bit_queue.c:325 and 332 do not wrap. The destination cursor must be inside its buffer or at its very end with bit offset 0, and the source cursor strictly inside the source. Outside these, the C arithmetic wraps or reads one byte past the source. It also requires the two buffers to be different arrays, because a copy within one buffer is not modelled; the queue reaches such a copy only through the buffer aliasing excluded for `ReadBits` and `WriteBits` below.
- `Queue.BitQueue.ReadBits`: requires the caller's buffer to be a different array from the ring; reading a queue into its own buffer is not modelled.
- `Queue.BitQueue.WriteBits`: requires the caller's buffer to be a different array from the ring; writing a queue from its own buffer is not modelled.
- `Queue.BitQueue.ConsumeBits`: moves the read cursor with the corrected `Cursors.Advance`, not the `uint8_t` update as written (see Findings).
- `Queue.BitQueue.ProduceBits`: moves the write cursor with the corrected `Cursors.Advance`, not the `uint8_t` update as written (see Findings).
- `Scenario.TestProgram`: does not state the first value printed (test.c:13-14). It ORs a byte into the uninitialised `res`, so it is undefined. The printing itself is left out; the printed values are results.

## Findings

| source | as written | input that shows it | evidently intended | confidence | as-written member | corrected member |
|---|---|---|---|---|---|---|
| bit_queue.c:198-200, 263-265 (also 193-195, 258-260) | the cursor bit offsets are `uint8_t` and `bit_offset += ret_val` is stored before it is split into byte and bit, so a step of more than 248 bits is taken modulo 256 | a 64-byte queue from `bit_queue_base_init(64)`, then `bit_queue_write_bits` of 256 bits: the copy moves 256 bits, `w_bit_offset` becomes `0 + 256 = 0`, and the write cursor stays at (0, 0) instead of (32, 0) while `written_bits` is 256, breaking the cursor invariant | the cursor moves on by exactly the number of bits copied | not executed | `Cursors.AdvanceAsWritten`, `Cursors.AdvanceAsWrittenLosesBits` | `Cursors.Advance` |
