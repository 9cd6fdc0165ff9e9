/**
 * The bits held by the queue, read around its buffer: `n` bits from bit
 * position `start`, wrapping at the capacity `cap` (the buffer size in bits).
 *
 * Positions never run more than one lap past the start, so wrapping is one
 * subtraction of `cap` (`Wrap`), which is `p % cap` for `p < 2 * cap`.
 */
module Circular {
  import opened Bits

  /** Position `p` taken back onto a ring of `cap` positions; `p` is less than two laps. */
  function Wrap(p: nat, cap: nat): (q: nat)
    requires p < 2 * cap
    ensures q < cap && (q == p || q + cap == p)
  {
    if p < cap then p else p - cap
  }

  /** `Wrap` is the remainder modulo `cap`. */
  lemma WrapIsMod(p: nat, cap: nat)
    requires p < 2 * cap
    ensures Wrap(p, cap) == p % cap
  {
    if p < cap {
      assert p == cap * 0 + p;
    } else {
      assert p == cap * 1 + (p - cap);
    }
  }

  /** `n` bits of `buf` from position `start` on, wrapping around at `cap`. */
  ghost function CircularBits(buf: seq<bv8>, cap: nat, start: nat, n: nat): (bits: seq<bool>)
    requires 0 < cap <= |buf| * 8 && start < cap && n <= cap
    ensures |bits| == n
  {
    seq(n, i requires 0 <= i < n => Bit(buf, Wrap(start + i, cap)))
  }

  /** Moving round the ring in two steps is moving round it in one. */
  lemma WrapTwice(a: nat, b: nat, c: nat, cap: nat)
    requires a < cap && b + c <= cap
    ensures Wrap(Wrap(a + b, cap) + c, cap) == Wrap(a + b + c, cap)
  {
  }

  /**
   * A stretch of the circular contents that does not wrap is a plain run
   * of buffer bits.
   */
  lemma CircularSlice(buf: seq<bv8>, cap: nat, start: nat, n: nat, c: nat, k: nat)
    requires 0 < cap <= |buf| * 8 && start < cap && n <= cap
    requires c + k <= n && Wrap(start + c, cap) + k <= cap
    ensures BitsFrom(buf, Wrap(start + c, cap), k) == CircularBits(buf, cap, start, n)[c..c + k]
  {
    var run, all := BitsFrom(buf, Wrap(start + c, cap), k), CircularBits(buf, cap, start, n);
    forall i | 0 <= i < k
      ensures run[i] == all[c + i]
    {
      WrapTwice(start, c, i, cap);
    }
  }

  /** Dropping `k` bits from the front moves the start on by `k` round the ring. */
  lemma CircularDrop(buf: seq<bv8>, cap: nat, start: nat, n: nat, k: nat)
    requires 0 < cap <= |buf| * 8 && start < cap && n <= cap && k <= n
    ensures CircularBits(buf, cap, Wrap(start + k, cap), n - k) == CircularBits(buf, cap, start, n)[k..]
  {
    var rest, all := CircularBits(buf, cap, Wrap(start + k, cap), n - k), CircularBits(buf, cap, start, n);
    forall i | 0 <= i < n - k
      ensures rest[i] == all[k + i]
    {
      WrapTwice(start, k, i, cap);
    }
  }

  /**
   * One pass of a read: ORing the oldest `n` held bits, a stretch of the
   * ring that does not wrap, in right after the bits `taken` so far extends
   * those by the `n` bits and leaves the rest held.
   */
  lemma CircularReadStep(orig: seq<bv8>, before: seq<bv8>, after: seq<bv8>, ring: seq<bv8>,
                         cap: nat, start: nat, held: nat, n: nat, taken: seq<bool>)
    requires 0 < cap <= |ring| * 8 && start < cap && held <= cap && n <= held && start + n <= cap
    requires OrInto(orig, before, 0, taken)
    requires OrInto(before, after, |taken|, BitsFrom(ring, start, n))
    ensures OrInto(orig, after, 0, taken + CircularBits(ring, cap, start, held)[..n])
    ensures CircularBits(ring, cap, Wrap(start + n, cap), held - n) == CircularBits(ring, cap, start, held)[n..]
  {
    var data := CircularBits(ring, cap, start, held);
    assert Wrap(start + 0, cap) == start;
    CircularSlice(ring, cap, start, held, 0, n);
    OrIntoCompose(orig, before, after, 0, taken, data[..n]);
    CircularDrop(ring, cap, start, held, n);
  }

  /**
   * ORing `bits` in right behind the last held bit appends them, each ORed
   * with the stale bit it lands on, and leaves the held bits alone.
   */
  lemma CircularAppend(before: seq<bv8>, after: seq<bv8>, cap: nat, start: nat, n: nat, bits: seq<bool>)
    requires 0 < cap <= |before| * 8 && start < cap && n + |bits| <= cap
    requires Wrap(start + n, cap) + |bits| <= cap
    requires OrInto(before, after, Wrap(start + n, cap), bits)
    ensures CircularBits(after, cap, start, n + |bits|) ==
            CircularBits(before, cap, start, n) + OrBits(BitsFrom(before, Wrap(start + n, cap), |bits|), bits)
  {
    var end := Wrap(start + n, cap);
    var lhs := CircularBits(after, cap, start, n + |bits|);
    var rhs := CircularBits(before, cap, start, n) + OrBits(BitsFrom(before, end, |bits|), bits);
    forall i | 0 <= i < n + |bits|
      ensures lhs[i] == rhs[i]
    {
      var p := Wrap(start + i, cap);
      assert OrAt(before, after, end, bits, p);
      if i < n {
        // a held bit never lies where the new bits go
        assert !(end <= p < end + |bits|);
      } else {
        WrapTwice(start, n, i - n, cap);
        assert p == end + (i - n);
      }
    }
  }
}
