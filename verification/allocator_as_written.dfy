/**
  split exactly as umalloc.c writes it. It stores the remainder's word as
  `(size - (request + 8)) & 0x0FFFFFFF` and then places the carved block one
  read-back remainder past the payload. Below 2^28 bytes the read-back size is
  the intended one (module Blocks shows that only bit 3 differs); from 2^28 on
  it is truncated, the carved block lands inside the old block, and the bytes
  between its end and the old block's end belong to no block at all.
 */
module AllocatorAsWritten {
  import opened Memory
  import opened Blocks
  import opened Heaps
  import opened Allocator
  import opened AllocatorProofs

  /**
    The remainder size split as written leaves in the header, as get_size
    reads it back: the intended remainder `total - request - 16`, modulo 2^28.
   */
  function RemainderAsWritten(total: nat, asize: nat): (rest: nat)
    requires total % ALIGNMENT == 0 && asize % ALIGNMENT == 0 && asize + H <= total
    ensures rest == (total - asize - H) % SIZE_MASK_MODULUS
    ensures !IsAllocated(Block(SplitRemainderWordAsWritten(total, asize), NULL))
  {
    GetSize(Block(SplitRemainderWordAsWritten(total, asize), NULL))
  }

  /**
    split as written on the block at `b`, whose size is a multiple of 16. Its
    test `get_size(block) - size >= sizeof(memory_block_t *)` asks for one
    word of room; with both sizes multiples of 16 that is a header's worth.
    The remainder keeps its link, since line 122 rewrites only the packed word.
   */
  function SplitAsWritten(h: Heap, b: Addr, size: nat): (r: Carve)
    requires b in h.mem && h.mem[b].size % ALIGNMENT == 0 && Align(size) <= h.mem[b].size
    ensures r.heap.free == h.free && r.heap.brk == h.brk
    ensures r.block in r.heap.mem && r.heap.mem[r.block] == Header(Align(size), true, NULL)
    ensures r.block == b <==> h.mem[b].size - Align(size) < H
    ensures r.block != b ==>
              && b in r.heap.mem
              && r.heap.mem[b] == Header((h.mem[b].size - Align(size) - H) % SIZE_MASK_MODULUS, false, h.mem[b].next)
              && End(r.heap.mem, b) == r.block
    ensures forall a :: a in h.mem && a != b && a != r.block ==> a in r.heap.mem && r.heap.mem[a] == h.mem[a]
  {
    var asize := Align(size);
    var total := h.mem[b].size;
    AlignedArith(total, asize);
    if total - asize >= WORD then
      var word := SplitRemainderWordAsWritten(total, asize);
      var rest := RemainderAsWritten(total, asize);
      var nb := GetPayload(b) + GetSize(Block(word, NULL));
      Carve(h.(mem := h.mem[b := Header(rest, IsAllocated(Block(word, NULL)), h.mem[b].next)][nb := Header(asize, true, NULL)]), nb)
    else
      Carve(h.(mem := h.mem[b := Header(asize, true, NULL)]), b)
  }

  /**
    split as written agrees with the intended split exactly when the
    remainder is below 2^28 bytes (or there is no remainder at all).
   */
  lemma SplitAsWrittenAgrees(h: Heap, b: Addr, size: nat)
    requires b in h.mem && h.mem[b].size % ALIGNMENT == 0 && Align(size) <= h.mem[b].size
    ensures SplitAsWritten(h, b, size) == Split(h, b, size)
            <==> h.mem[b].size < Align(size) + H + SIZE_MASK_MODULUS
  {
    var asize := Align(size);
    var total := h.mem[b].size;
    if total - asize >= H && total >= asize + H + SIZE_MASK_MODULUS {
      assert (total - asize - H) % SIZE_MASK_MODULUS < total - asize - H;
      assert SplitAsWritten(h, b, size).block != Split(h, b, size).block;
    }
  }

  /**
    Once the remainder reaches 2^28 bytes, every byte from the end of the
    carved block up to the end of the old block lies in no block of the new
    heap, although it lay in the old block.
   */
  lemma SplitAsWrittenOrphans(h: Heap, b: Addr, size: nat, x: int)
    requires Disjoint(h.mem) && b in h.mem && h.mem[b].size % ALIGNMENT == 0
    requires h.mem[b].size >= Align(size) + H + SIZE_MASK_MODULUS
    ensures var r := SplitAsWritten(h, b, size);
            End(r.heap.mem, r.block) <= x < End(h.mem, b) ==>
              && InBlock(h.mem, b, x)
              && forall a :: a in r.heap.mem ==> !InBlock(r.heap.mem, a, x)
  {
    var r := SplitAsWritten(h, b, size);
    var total, asize := h.mem[b].size, Align(size);
    assert (total - asize - H) % SIZE_MASK_MODULUS <= total - asize - H - SIZE_MASK_MODULUS;
    if End(r.heap.mem, r.block) <= x < End(h.mem, b) {
      forall a | a in r.heap.mem
        ensures !InBlock(r.heap.mem, a, x)
      {
        if a != b && a != r.block {
          OneBlockPerByte(h.mem, b, a, x);
        }
      }
    }
  }

  /** A valid heap whose one free block, at 32, holds 2^28 + 32 bytes. */
  function LargeFreeHeap(): Heap
  {
    Heap(map[16 := Header(0, false, 32), 32 := Header(0x1000_0020, false, NULL)], [16, 32], 0x1000_0050)
  }

  /** Its free list: sentinel at 16, then the block at 32. */
  lemma LargeFreeLists()
    ensures var h := LargeFreeHeap();
            Linked(h) && SentinelOk(h) && Ascending(h.free) && FreeListExact(h) && Detached(h) && Coalesced(h)
  {
    var h := LargeFreeHeap();
    assert h.free[0] == 16 && h.free[1] == 32;
    assert forall a :: a in h.mem ==> a == 16 || a == 32;
  }

  /** Its two blocks: in bounds, aligned, and not overlapping. */
  lemma LargeFreeLayout()
    ensures var h := LargeFreeHeap();
            Disjoint(h.mem) && Bounded(h) && Aligned(h)
  {
    var h := LargeFreeHeap();
    assert forall a :: a in h.mem ==> a == 16 || a == 32;
  }

  /** The large-block heap keeps every invariant. */
  lemma LargeFreeHeapValid()
    ensures Valid(LargeFreeHeap())
  {
    LargeFreeLists();
    LargeFreeLayout();
  }

  /** umalloc(16) on it walks no further than the sentinel and splits the block at 32. */
  lemma LargeFreeSplitPath()
    ensures Linked(LargeFreeHeap())
    ensures Place(LargeFreeHeap(), 16) == Split(LargeFreeHeap(), 32, 16)
  {
    LargeFreeLists();
    var h := LargeFreeHeap();
    assert FindFit(h, H + 16, 0) == 0;
  }

  /**
    As written, that split stores remainder size 0 and carves the 16-byte
    block at 48, so the bytes from 80 up to the old end 2^28 + 80 lie in no
    block.
   */
  lemma TruncatedSplitAsWritten()
    ensures Valid(LargeFreeHeap())
    ensures Place(LargeFreeHeap(), 16) == Split(LargeFreeHeap(), 32, 16)
    ensures var r := SplitAsWritten(LargeFreeHeap(), 32, 16);
            && r.block == 48
            && r.heap.mem[32].size == 0
            && forall x, a :: 80 <= x < 0x1000_0050 && a in r.heap.mem ==> !InBlock(r.heap.mem, a, x)
  {
    LargeFreeHeapValid();
    LargeFreeSplitPath();
    var h := LargeFreeHeap();
    var r := SplitAsWritten(h, 32, 16);
    assert r.block == 48;
    forall x, a | 80 <= x < 0x1000_0050 && a in r.heap.mem
      ensures !InBlock(r.heap.mem, a, x)
    {
      SplitAsWrittenOrphans(h, 32, 16, x);
    }
  }

  /** The intended split carves the 16-byte block at 2^28 + 48, the last 32 bytes of the old block. */
  lemma LargeFreeCorrectedPayload()
    ensures Linked(LargeFreeHeap())
    ensures UMalloc(LargeFreeHeap(), 16).payload == 0x1000_0040
  {
    LargeFreeSplitPath();
    AlignFixed(16);
    assert Split(LargeFreeHeap(), 32, 16).block == 0x1000_0030;
  }

  /**
    The intended split carves the 16-byte block at the old block's end, so
    umalloc(16) returns 2^28 + 64 and the heap stays valid.
   */
  lemma TruncatedSplitCorrected()
    ensures Valid(LargeFreeHeap())
    ensures var g := UMalloc(LargeFreeHeap(), 16);
            g.payload == 0x1000_0040 && Valid(g.heap)
  {
    LargeFreeHeapValid();
    LargeFreeCorrectedPayload();
    UMallocValid(LargeFreeHeap(), 16);
  }
}
