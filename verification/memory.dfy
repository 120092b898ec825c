/**
  The layout rules of memory.h: the payload alignment, the ALIGN rounding
  macro, and the two-word block header `memory_block_t`.
 */
module Memory {

  /** Byte addresses. Address 0 plays the role of the C null pointer. */
  type Addr = nat

  const NULL: Addr := 0

  /** ALIGNMENT: every payload, and every block size, is a multiple of 16 bytes. */
  const ALIGNMENT: nat := 16

  /** One machine word, `sizeof(memory_block_t *)`. */
  const WORD: nat := 8

  /** `sizeof(memory_block_t)`: the packed size/flag word followed by the `next` link. */
  const H: nat := 2 * WORD

  /** The raw header as it sits in memory: `block_size_alloc` and `next`. */
  datatype Block = Block(sizeAlloc: nat, next: Addr)

  /**
    ALIGN(n) = (n + 15) & ~15. For a non-negative operand, clearing the low four
    bits is rounding down to a multiple of 16, which is what the body computes.
    The result is the least multiple of ALIGNMENT that is at least n.
   */
  function Align(n: nat): (r: nat)
    ensures r % ALIGNMENT == 0
    ensures n <= r < n + ALIGNMENT
  {
    (n + (ALIGNMENT - 1)) / ALIGNMENT * ALIGNMENT
  }

  /** Differences and sums of multiples of 16 are multiples of 16. */
  lemma AlignedArith(x: nat, y: nat)
    requires x % ALIGNMENT == 0 && y % ALIGNMENT == 0
    ensures (x + y) % ALIGNMENT == 0
    ensures y <= x ==> (x - y) % ALIGNMENT == 0
  {
  }

  /** No multiple of ALIGNMENT lies between n and ALIGN(n). */
  lemma AlignLeast(n: nat, m: nat)
    requires m % ALIGNMENT == 0 && n <= m
    ensures Align(n) <= m
  {
  }

  /** ALIGN leaves an already aligned size unchanged, and only such sizes. */
  lemma AlignFixed(n: nat)
    ensures Align(n) == n <==> n % ALIGNMENT == 0
  {
    if n % ALIGNMENT == 0 {
      AlignLeast(n, n);
    }
  }

  /** ALIGN(ALIGN(n)) == ALIGN(n). */
  lemma AlignIdempotent(n: nat)
    ensures Align(Align(n)) == Align(n)
  {
    AlignFixed(Align(n));
  }

  /*
    The header word: bit 0 is the allocated flag, bits 1-3 are unused (always 0
    in a well-formed word) and the remaining bits are the size, which is a
    multiple of 16 and so has its low four bits clear.
   */

  /** Bit 0 of the packed word. */
  function FlagBit(w: nat): nat { w % 2 }

  /** Bits 1-3 of the packed word, as a number in 0..7. */
  function UnusedBits(w: nat): nat { w / 2 % 8 }

  /** The size held in the high bits (the word with its low four bits cleared). */
  function SizeBits(w: nat): nat { w / ALIGNMENT * ALIGNMENT }

  /** A word in the documented layout: the unused bits are zero. */
  predicate WellFormedWord(w: nat) { UnusedBits(w) == 0 }

  /** The packed word of a size and a flag: `size | alloc`. */
  function Pack(size: nat, alloc: bool): (w: nat)
    requires size % ALIGNMENT == 0
    ensures WellFormedWord(w)
    ensures SizeBits(w) == size
    ensures FlagBit(w) == 1 <==> alloc
  {
    size + (if alloc then 1 else 0)
  }

  /** A header is two words, so the payload of a 16-aligned header is 16-aligned. */
  lemma HeaderKeepsAlignment(b: Addr)
    requires b % ALIGNMENT == 0
    ensures H == 2 * WORD == ALIGNMENT
    ensures (b + H) % ALIGNMENT == 0
  {
  }
}
