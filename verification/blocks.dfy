/**
  The header helpers at the top of umalloc.c: reading and writing the packed
  size/flag word, the `next` link, and the header/payload address conversion.
  The rest of the model works on the decoded view `Header`; `Decode` and
  `Encode` are the boundary, and the lemmas below show that each helper acts on
  the decoded view exactly as the heap model assumes.
 */
module Blocks {
  import opened Memory

  /** A header with its packed word split into its two logical fields. */
  datatype Header = Header(size: nat, alloc: bool, next: Addr)

  /** is_allocated: bit 0 of the packed word (`block_size_alloc & 0x1`). */
  function IsAllocated(b: Block): (r: bool)
    ensures b.sizeAlloc == GetSize(b) + 2 * UnusedBits(b.sizeAlloc) + (if r then 1 else 0)
  {
    FlagBit(b.sizeAlloc) == 1
  }

  /** get_size: the packed word with its low four bits cleared. */
  function GetSize(b: Block): (s: nat)
    ensures s % ALIGNMENT == 0
    ensures s <= b.sizeAlloc < s + ALIGNMENT
  {
    SizeBits(b.sizeAlloc)
  }

  /** allocate: sets the flag bit (`|= 0x1`) and clears the link. */
  function Allocate(b: Block): (r: Block)
    ensures IsAllocated(r)
    ensures r.next == NULL
    ensures GetSize(r) == GetSize(b)
    ensures UnusedBits(r.sizeAlloc) == UnusedBits(b.sizeAlloc)
  {
    Block(b.sizeAlloc - FlagBit(b.sizeAlloc) + 1, NULL)
  }

  /** deallocate: clears the flag bit (`&= ~0x1`) and touches nothing else. */
  function Deallocate(b: Block): (r: Block)
    ensures !IsAllocated(r)
    ensures GetSize(r) == GetSize(b)
    ensures UnusedBits(r.sizeAlloc) == UnusedBits(b.sizeAlloc)
    ensures r.next == b.next
  {
    FlagBitOnly(b.sizeAlloc);
    Block(b.sizeAlloc - FlagBit(b.sizeAlloc), b.next)
  }

  /** Clearing bit 0 of a word leaves its other bits alone. */
  lemma FlagBitOnly(w: nat)
    ensures SizeBits(w - FlagBit(w)) == SizeBits(w)
    ensures UnusedBits(w - FlagBit(w)) == UnusedBits(w)
    ensures FlagBit(w - FlagBit(w)) == 0
  {
    var q, r := w / 16, w % 16;
    assert w == 16 * q + r;
    assert w - FlagBit(w) == 16 * q + (r - r % 2);
  }

  /** get_next: the link of the block at `p`, or NULL for the null block. */
  function GetNext(mem: map<Addr, Block>, p: Addr): (n: Addr)
    requires p == NULL || p in mem
    ensures p == NULL ==> n == NULL
    ensures p != NULL ==> n == mem[p].next
  {
    if p == NULL then NULL else mem[p].next
  }

  /** The status returned by put_block and the memory after the call. */
  datatype PutResult = PutResult(status: int, mem: map<Addr, Block>)

  /**
    put_block: writes a fresh header `size | alloc` with a null link at `p`,
    returning 0, or returns -1 and writes nothing when `p` is null or the size
    is not a multiple of ALIGNMENT. (Its third test, `alloc >> 1 != 0`, can
    never hold of a C `bool`.)
   */
  function PutBlock(mem: map<Addr, Block>, p: Addr, size: nat, alloc: bool): (r: PutResult)
    ensures r.status == 0 <==> p != NULL && size % ALIGNMENT == 0
    ensures r.status != 0 ==> r.status == -1 && r.mem == mem
    ensures r.status == 0 ==>
              && p in r.mem
              && GetSize(r.mem[p]) == size
              && IsAllocated(r.mem[p]) == alloc
              && r.mem[p].next == NULL
              && WellFormedWord(r.mem[p].sizeAlloc)
    ensures forall a :: a in mem && a != p ==> a in r.mem && r.mem[a] == mem[a]
    ensures r.mem.Keys <= mem.Keys + {p}
  {
    if p == NULL || size % ALIGNMENT != 0 then PutResult(-1, mem)
    else PutResult(0, mem[p := Block(Pack(size, alloc), NULL)])
  }

  /** get_payload: the payload starts one header past the block. */
  function GetPayload(b: Addr): (p: Addr)
    ensures p > b && p - b == H
    ensures b % ALIGNMENT == 0 ==> p % ALIGNMENT == 0
  {
    b + H
  }

  /** get_block: the header sits one header before the payload. */
  function GetBlock(p: Addr): (b: Addr)
    requires p >= H
    ensures GetPayload(b) == p
  {
    p - H
  }

  /** Converting a block to its payload and back gives the block. */
  lemma PayloadRoundTrip(b: Addr)
    ensures GetBlock(GetPayload(b)) == b
  {
  }

  /** The decoded view of a raw header. */
  function Decode(b: Block): (h: Header)
    ensures h.size % ALIGNMENT == 0
    ensures h.next == b.next
  {
    Header(GetSize(b), IsAllocated(b), b.next)
  }

  /** The raw header of a decoded one, in the documented layout. */
  function Encode(h: Header): (b: Block)
    requires h.size % ALIGNMENT == 0
    ensures WellFormedWord(b.sizeAlloc)
  {
    Block(Pack(h.size, h.alloc), h.next)
  }

  /** Encoding then decoding loses nothing. */
  lemma DecodeEncode(h: Header)
    requires h.size % ALIGNMENT == 0
    ensures Decode(Encode(h)) == h
  {
  }

  /** A raw header in the documented layout is the encoding of its decoded view. */
  lemma EncodeDecode(b: Block)
    requires WellFormedWord(b.sizeAlloc)
    ensures Encode(Decode(b)) == b
  {
  }

  /** allocate, seen through Decode: the flag is set, the link cleared, the size kept. */
  lemma AllocateDecoded(b: Block)
    ensures Decode(Allocate(b)) == Decode(b).(alloc := true, next := NULL)
  {
  }

  /** deallocate, seen through Decode: only the flag changes. */
  lemma DeallocateDecoded(b: Block)
    ensures Decode(Deallocate(b)) == Decode(b).(alloc := false)
  {
  }

  /** put_block, seen through Decode: it writes exactly the header (size, alloc, NULL). */
  lemma PutBlockDecoded(mem: map<Addr, Block>, p: Addr, size: nat, alloc: bool)
    requires p != NULL && size % ALIGNMENT == 0
    ensures var r := PutBlock(mem, p, size, alloc);
            r.status == 0 && Decode(r.mem[p]) == Header(size, alloc, NULL)
  {
  }

  /*
    Size updates in split and ufree store `(...) & 0x0FFFFFFF` into the packed
    word, keeping only its low 28 bits. For a non-negative value that is the
    remainder modulo 2^28.
   */

  const SIZE_MASK_MODULUS: nat := 0x1000_0000

  /** The word a size update stores, as written: `x & 0x0FFFFFFF`. */
  function MaskedWord(x: nat): (w: nat)
    ensures w < SIZE_MASK_MODULUS
    ensures x < SIZE_MASK_MODULUS ==> w == x
  {
    x % SIZE_MASK_MODULUS
  }

  /**
    The word split writes into the remainder's header, as written: it subtracts
    `sizeof(memory_block_t *)` (one word) instead of the header size, and masks.
   */
  function SplitRemainderWordAsWritten(total: nat, size: nat): (w: nat)
    requires size + WORD <= total
    ensures w < SIZE_MASK_MODULUS
    ensures total % ALIGNMENT == 0 && size % ALIGNMENT == 0 ==>
              && w == (total - size - H) % SIZE_MASK_MODULUS + WORD
              && SizeBits(w) == (total - size - H) % SIZE_MASK_MODULUS
              && FlagBit(w) == 0
  {
    MaskedRemainder(total, size);
    MaskedWord(total - (size + WORD))
  }

  /**
    With both sizes multiples of 16, the one-word shortfall leaves 8 in the low
    four bits of the word, and the mask keeps the intended remainder modulo 2^28.
   */
  lemma MaskedRemainder(total: nat, size: nat)
    requires size + WORD <= total
    ensures total % ALIGNMENT == 0 && size % ALIGNMENT == 0 ==>
              var y := total - size - H;
              && MaskedWord(total - (size + WORD)) == y % SIZE_MASK_MODULUS + WORD
              && SizeBits(y % SIZE_MASK_MODULUS + WORD) == y % SIZE_MASK_MODULUS
              && FlagBit(y % SIZE_MASK_MODULUS + WORD) == 0
  {
    if total % ALIGNMENT == 0 && size % ALIGNMENT == 0 {
      AlignedArith(total, size);
      AlignedArith(total - size, H);
      var y := total - size - H;
      MaskedMergeTruncates(y);
      OffsetWord(y);
    }
  }

  /** The remainder header split intends: size `total - size - H`, free, link kept. */
  function SplitRemainder(total: nat, size: nat, next: Addr): (b: Block)
    requires total % ALIGNMENT == 0 && size % ALIGNMENT == 0
    requires size + H <= total
    ensures Decode(b) == Header(total - size - H, false, next)
    ensures WellFormedWord(b.sizeAlloc)
  {
    Encode(Header(total - size - H, false, next))
  }

  /**
    The word split writes decodes to the intended remainder size modulo 2^28
    (below 2^28, exactly the intended size: the one-word shortfall is absorbed
    by get_size's masking), with a clear flag, but it always sets bit 3, one of
    the bits memory.h documents as unused.
   */
  lemma SplitRemainderAsWrittenSetsBit3(total: nat, size: nat)
    requires total % ALIGNMENT == 0 && size % ALIGNMENT == 0
    requires size + H <= total
    ensures GetSize(Block(SplitRemainderWordAsWritten(total, size), NULL)) == (total - size - H) % SIZE_MASK_MODULUS
    ensures total - size - H < SIZE_MASK_MODULUS ==>
              GetSize(Block(SplitRemainderWordAsWritten(total, size), NULL)) == total - size - H
    ensures !IsAllocated(Block(SplitRemainderWordAsWritten(total, size), NULL))
    ensures UnusedBits(SplitRemainderWordAsWritten(total, size)) == 4
    ensures !WellFormedWord(SplitRemainderWordAsWritten(total, size))
  {
    var r := (total - size - H) % SIZE_MASK_MODULUS;
    var w := SplitRemainderWordAsWritten(total, size);
    assert w == r + WORD && SizeBits(w) == r;
    assert r % ALIGNMENT == 0 by {
      assert r == w / ALIGNMENT * ALIGNMENT;
    }
    var q := r / ALIGNMENT;
    assert w == q * ALIGNMENT + WORD;
    assert w / 2 == q * 8 + 4;
  }

  /** Concretely: a 64-byte free block split for a 16-byte request. */
  lemma SplitRemainderExample()
    ensures SplitRemainderWordAsWritten(64, 16) == 40
    ensures SplitRemainder(64, 16, NULL).sizeAlloc == 32
  {
  }

  /** Adding one word to a 16-aligned value below the mask only sets bit 3. */
  lemma OffsetWord(y: nat)
    requires y % SIZE_MASK_MODULUS % ALIGNMENT == 0
    ensures MaskedWord(y + WORD) == y % SIZE_MASK_MODULUS + WORD
    ensures SizeBits(y % SIZE_MASK_MODULUS + WORD) == y % SIZE_MASK_MODULUS
    ensures FlagBit(y % SIZE_MASK_MODULUS + WORD) == 0
  {
    var r := y % SIZE_MASK_MODULUS;
    assert r + WORD < SIZE_MASK_MODULUS;
    OffsetMask(y, y / SIZE_MASK_MODULUS, r);
    OffsetBits(r);
  }

  /** Below the mask, the offset word keeps its place modulo 2^28. */
  lemma OffsetMask(y: nat, q: nat, r: nat)
    requires y == q * SIZE_MASK_MODULUS + r && r + WORD < SIZE_MASK_MODULUS
    ensures (y + WORD) % SIZE_MASK_MODULUS == r + WORD
  {
    assert y + WORD == q * SIZE_MASK_MODULUS + (r + WORD);
  }

  /** A 16-aligned value plus one word has its size bits unchanged and bit 0 clear. */
  lemma OffsetBits(r: nat)
    requires r % ALIGNMENT == 0
    ensures SizeBits(r + WORD) == r && FlagBit(r + WORD) == 0
  {
    var k := r / ALIGNMENT;
    assert r == ALIGNMENT * k;
    assert r + WORD == ALIGNMENT * k + WORD;
    assert (r + WORD) / ALIGNMENT == k;
    assert r + WORD == 2 * (8 * k + 4);
  }

  /**
    A merge stored through the mask reads back as its true size modulo 2^28:
    exact below 2^28, and short by 2^28 from there up to 2^29.
   */
  lemma MaskedMergeTruncates(x: nat)
    requires x % ALIGNMENT == 0
    ensures GetSize(Block(MaskedWord(x), NULL)) == x % SIZE_MASK_MODULUS
    ensures GetSize(Block(MaskedWord(x), NULL)) == x <==> x < SIZE_MASK_MODULUS
    ensures SIZE_MASK_MODULUS <= x < 2 * SIZE_MASK_MODULUS ==> GetSize(Block(MaskedWord(x), NULL)) == x - SIZE_MASK_MODULUS
  {
    var q, r := x / SIZE_MASK_MODULUS, x % SIZE_MASK_MODULUS;
    assert r % ALIGNMENT == 0 by {
      assert r == x - q * SIZE_MASK_MODULUS;
      assert q * SIZE_MASK_MODULUS == ALIGNMENT * (q * 0x100_0000);
    }
    assert SizeBits(r) == r;
  }

  /** Concretely: neighbours of 128 MiB and 128 MiB - 16 bytes merge into a word of size 0. */
  lemma MaskedMergeExample()
    ensures 0x800_0000 + H + 0x7FF_FFF0 == SIZE_MASK_MODULUS
    ensures GetSize(Block(MaskedWord(0x800_0000 + H + 0x7FF_FFF0), NULL)) == 0
  {
    MaskedMergeTruncates(SIZE_MASK_MODULUS);
  }
}
