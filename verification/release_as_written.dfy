/**
  ufree exactly as umalloc.c writes it, next to the corrected model in module
  Release. Three things differ:
  - the adjacency tests add `get_size` to a `memory_block_t *`, so the offset
    is scaled by the 16-byte header size;
  - the merged sizes are stored through the `0x0FFFFFFF` mask;
  - the backward merge is also taken when the predecessor is the sentinel.
  The lemmas below exhibit a concrete heap for each difference.
 */
module ReleaseAsWritten {
  import opened Memory
  import opened Blocks
  import opened Heaps
  import opened Allocator
  import opened AllocatorProofs
  import opened Release
  import opened ReleaseProofs

  /**
    The end address ufree's adjacency tests compute for block `a`: the
    payload pointer, cast to `memory_block_t *`, plus `get_size(a)`, which
    advances by `get_size(a)` whole headers.
   */
  function ScaledEnd(mem: map<Addr, Header>, a: Addr): (e: nat)
    requires a in mem
    ensures e == GetPayload(a) + H * mem[a].size
    ensures mem[a].size == 0 ==> e == End(mem, a)
    ensures mem[a].size > 0 ==> e > End(mem, a)
  {
    GetPayload(a) + H * mem[a].size
  }

  /** The size a merge stores and get_size then reads back: the masked sum. */
  function MaskedSize(x: nat): (s: nat)
    requires x % ALIGNMENT == 0
    ensures s < SIZE_MASK_MODULUS
    ensures x < SIZE_MASK_MODULUS ==> s == x
  {
    GetSize(Block(MaskedWord(x), NULL))
  }

  /** Backward coalescing as written: the stored size is masked. */
  function MergeBackAsWritten(h: Heap, pred: Addr, b: Addr): (r: Heap)
    requires pred in h.mem && b in h.mem && pred != b
    requires h.mem[pred].size % ALIGNMENT == 0 && h.mem[b].size % ALIGNMENT == 0
    ensures r.free == h.free && r.brk == h.brk && r.mem.Keys == h.mem.Keys - {b}
    ensures r.mem[pred].size < SIZE_MASK_MODULUS
  {
    AlignedArith(h.mem[pred].size, H);
    AlignedArith(h.mem[pred].size + H, h.mem[b].size);
    var size := MaskedSize(h.mem[pred].size + H + h.mem[b].size);
    h.(mem := (h.mem - {b})[pred := Header(size, false, h.mem[pred].next)])
  }

  /** Forward coalescing as written: the stored size is masked. */
  function AbsorbAsWritten(h: Heap, k: nat): (r: Heap)
    requires Linked(h) && k + 1 < |h.free| && h.free[k] != h.free[k + 1]
    requires h.mem[h.free[k]].size % ALIGNMENT == 0 && h.mem[h.free[k + 1]].size % ALIGNMENT == 0
    ensures r.free == RemoveAt(h.free, k + 1) && r.brk == h.brk
    ensures r.mem.Keys == h.mem.Keys - {h.free[k + 1]}
    ensures r.mem[h.free[k]].size < SIZE_MASK_MODULUS
  {
    var c, n := h.free[k], h.free[k + 1];
    AlignedArith(h.mem[c].size, H);
    AlignedArith(h.mem[c].size + H, h.mem[n].size);
    var size := MaskedSize(h.mem[c].size + H + h.mem[n].size);
    h.(mem := (h.mem - {n})[c := Header(size, false, h.mem[n].next)], free := RemoveAt(h.free, k + 1))
  }

  /** The forward step as written: the scaled end is compared with the link. */
  function MergeForwardAsWritten(h: Heap, k: nat): (r: Heap)
    requires Linked(h) && Aligned(h) && k < |h.free|
    ensures r.brk == h.brk && r.mem.Keys <= h.mem.Keys
    ensures r.free == h.free || (k + 1 < |h.free| && r.free == RemoveAt(h.free, k + 1))
  {
    var c := h.free[k];
    LinkedNext(h, k);
    if ScaledEnd(h.mem, c) == h.mem[c].next then AbsorbAsWritten(h, k) else h
  }

  /** The coalescing step as written: scaled adjacency tests, masked sizes, no sentinel guard. */
  function CoalesceAsWritten(h: Heap, i: nat, b: Addr): (r: Heap)
    requires Linked(h) && Ascending(h.free) && Aligned(h) && i < |h.free|
    requires b in h.mem && b != NULL && b !in h.free
    requires i + 1 == |h.free| ==> h.mem[b].next == NULL
    ensures r.brk == h.brk && r.mem.Keys <= h.mem.Keys
    ensures b in r.mem ==> b in r.free
  {
    var pred := h.free[i];
    if ScaledEnd(h.mem, pred) == b then
      MergeBackAsWrittenLinked(h, pred, b);
      AlignedAfterMaskedMerge(h, pred, b);
      MergeForwardAsWritten(MergeBackAsWritten(h, pred, b), i)
    else
      SpliceLinked(h, i, b);
      SpliceAligned(h, i, b);
      MergeForwardAsWritten(Splice(h, i, b), i + 1)
  }

  /** ufree as written. */
  function UFreeAsWritten(h: Heap, p: Addr): (r: Heap)
    requires Valid(h) && p >= H && GetBlock(p) in h.mem && GetBlock(p) != h.free[0]
    ensures r.brk == h.brk && r.mem.Keys <= h.mem.Keys
    ensures GetBlock(p) in r.mem ==> GetBlock(p) in r.free
  {
    var b := GetBlock(p);
    var h0 := MarkFree(h, b);
    FindPredMarkFree(h, b, 0);
    var i := FindPred(h, b, 0);
    LinkedNext(h, i);
    if h.mem[h.free[i]].next == b then h0
    else
      Unlisted(h, b);
      MarkFreeAligned(h, b);
      CoalesceAsWritten(h0, i, b)
  }

  /** Freeing an allocated block as written: the walk does not meet it, and ufree goes on to coalesce. */
  lemma UFreeAsWrittenAllocated(h: Heap, p: Addr)
    requires Valid(h) && p >= H && GetBlock(p) in h.mem && GetBlock(p) != h.free[0]
    requires h.mem[GetBlock(p)].alloc
    ensures var b := GetBlock(p);
            var i := FindPred(h, b, 0);
            var h0 := MarkFree(h, b);
            && Releasing(h, b, i)
            && Linked(h0) && Ascending(h0.free) && Aligned(h0)
            && UFreeAsWritten(h, p) == CoalesceAsWritten(h0, i, b)
  {
    UFreeAllocated(h, p);
    MarkFreeAligned(h, GetBlock(p));
  }

  /**
    When the freed block is adjacent to neither list neighbour under either
    reading of the adjacency tests (the scaled one as written, the byte end as
    intended), both coalescing steps only splice the block in after its
    predecessor: no merge happens, so neither the scaling nor the mask matters.
   */
  lemma CoalesceAsWrittenSplices(h: Heap, i: nat, b: Addr)
    requires Linked(h) && Ascending(h.free) && Aligned(h) && i < |h.free|
    requires b in h.mem && b != NULL && b !in h.free
    requires i + 1 == |h.free| ==> h.mem[b].next == NULL
    requires ScaledEnd(h.mem, h.free[i]) != b && End(h.mem, h.free[i]) != b
    requires i + 1 < |h.free| ==> ScaledEnd(h.mem, b) != h.free[i + 1] && End(h.mem, b) != h.free[i + 1]
    ensures Linked(Splice(h, i, b))
    ensures CoalesceAsWritten(h, i, b) == Splice(h, i, b)
    ensures Coalesce(h, i, b) == Splice(h, i, b)
  {
    SpliceLinked(h, i, b);
    var s := Splice(h, i, b);
    assert s.free[i + 1] == b;
    LinkedNext(s, i + 1);
    assert s.mem[b].size == h.mem[b].size;
  }

  /**
    ufree as written and the corrected ufree agree on every allocated block
    that touches neither of its list neighbours under either adjacency test.
   */
  lemma UFreeAsWrittenAgrees(h: Heap, p: Addr)
    requires Valid(h) && p >= H && GetBlock(p) in h.mem && GetBlock(p) != h.free[0]
    requires h.mem[GetBlock(p)].alloc
    requires var b := GetBlock(p);
             var i := FindPred(h, b, 0);
             && ScaledEnd(h.mem, h.free[i]) != b && End(h.mem, h.free[i]) != b
             && (i + 1 < |h.free| ==> ScaledEnd(h.mem, b) != h.free[i + 1] && End(h.mem, b) != h.free[i + 1])
    ensures UFreeAsWritten(h, p) == UFree(h, p)
  {
    var b := GetBlock(p);
    var i := FindPred(h, b, 0);
    UFreeAllocated(h, p);
    UFreeAsWrittenAllocated(h, p);
    CoalesceAsWrittenSplices(MarkFree(h, b), i, b);
  }

  /** deallocate changes no size, so the heap stays aligned. */
  lemma MarkFreeAligned(h: Heap, b: Addr)
    requires Aligned(h) && b in h.mem
    ensures Aligned(MarkFree(h, b))
  {
  }

  /** The masked backward merge, like the intended one, keeps the list links. */
  lemma MergeBackAsWrittenLinked(h: Heap, pred: Addr, b: Addr)
    requires Linked(h) && Aligned(h) && pred in h.mem && b in h.mem && pred != b && b !in h.free
    ensures Linked(MergeBackAsWritten(h, pred, b))
  {
    MergeBackLinked(h, pred, b);
    var r, m := MergeBackAsWritten(h, pred, b), MergeBack(h, pred, b);
    assert r.free == m.free && r.mem.Keys == m.mem.Keys;
    assert forall a :: a in r.mem ==> r.mem[a].next == m.mem[a].next;
  }

  /** Splicing changes only links, so the heap stays aligned. */
  lemma SpliceAligned(h: Heap, i: nat, b: Addr)
    requires Linked(h) && Aligned(h) && i < |h.free| && b in h.mem && h.free[i] != b
    ensures Aligned(Splice(h, i, b))
  {
  }

  /** The masked merge keeps sizes aligned, since the mask modulus is a multiple of 16. */
  lemma AlignedAfterMaskedMerge(h: Heap, pred: Addr, b: Addr)
    requires Aligned(h) && pred in h.mem && b in h.mem && pred != b
    ensures Aligned(MergeBackAsWritten(h, pred, b))
  {
  }

  /*
    The sentinel finding. uinit at address 16 followed by umalloc(16) gives
    the heap below: the 16-byte block sits right after the sentinel's header.
   */

  /** The heap after uinit at address 16 and umalloc(16). */
  function FirstBlockHeap(): Heap
  {
    Heap(map[16 := Header(0, false, NULL), 32 := Header(16, true, NULL)], [16], 64)
  }

  /** It is what uinit and umalloc(16) produce, with payload 48, and it is valid. */
  lemma FirstBlockHeapReached()
    ensures UMalloc(UInit(EmptyHeap(16)), 16) == Grant(FirstBlockHeap(), 48)
    ensures Valid(FirstBlockHeap())
  {
    var h := UInit(EmptyHeap(16));
    assert h == Heap(map[16 := Header(0, false, NULL)], [16], 32);
    assert Align(16) == 16;
    assert FindFit(h, 32, 0) == 0;
    assert Place(h, 16) == Extend(h, 16);
    assert Extend(h, 16) == Carve(FirstBlockHeap(), 32);
    UInitValid(16);
    UMallocValid(h, 16);
  }

  /** The first-block heap once deallocate has cleared the flag of the block at 32. */
  function FirstBlockMarked(): Heap
  {
    Heap(map[16 := Header(0, false, NULL), 32 := Header(16, false, NULL)], [16], 64)
  }

  /** The sentinel at 16 with the block at 32 merged into it: size 32. */
  function SentinelMerged(): Heap
  {
    Heap(map[16 := Header(32, false, NULL)], [16], 64)
  }

  /** The marked heap with the block at 32 spliced in after the sentinel. */
  function FirstBlockSpliced(): Heap
  {
    Heap(map[16 := Header(0, false, 32), 32 := Header(16, false, NULL)], [16, 32], 64)
  }

  /** ufree of 48 stops its walk at the sentinel and clears the flag of the block at 32. */
  lemma FirstBlockWalk()
    ensures var h0 := FirstBlockMarked();
            && Linked(FirstBlockHeap())
            && FindPred(FirstBlockHeap(), 32, 0) == 0
            && MarkFree(FirstBlockHeap(), 32) == h0
            && Linked(h0) && Ascending(h0.free) && Aligned(h0)
  {
    var h, h0 := FirstBlockHeap(), FirstBlockMarked();
    assert h.mem[32 := h.mem[32].(alloc := false)] == h0.mem;
    assert forall a :: a in h0.mem ==> a == 16 || a == 32;
  }

  /** As written, the scaled test sees the block at 32 right after the sentinel and merges it in. */
  lemma SentinelMergeSteps()
    requires Valid(FirstBlockHeap())
    ensures UFreeAsWritten(FirstBlockHeap(), 48) == SentinelMerged()
  {
    UFreeAsWrittenAllocated(FirstBlockHeap(), 48);
    FirstBlockWalk();
    var h0 := FirstBlockMarked();
    assert ScaledEnd(h0.mem, 16) == 32;
    SentinelMergeForward();
  }

  /** The masked merge into the sentinel gives size 32, and the forward test then finds nothing. */
  lemma SentinelMergeForward()
    ensures var h0 := FirstBlockMarked();
            && Linked(h0) && Ascending(h0.free) && Aligned(h0)
            && Linked(MergeBackAsWritten(h0, 16, 32))
            && Aligned(MergeBackAsWritten(h0, 16, 32))
            && MergeForwardAsWritten(MergeBackAsWritten(h0, 16, 32), 0) == SentinelMerged()
  {
    FirstBlockWalk();
    var h0 := FirstBlockMarked();
    assert MaskedSize(32) == 32;
    var m := MergeBackAsWritten(h0, 16, 32);
    assert m.mem == SentinelMerged().mem;
    assert ScaledEnd(m.mem, 16) != NULL;
  }

  /**
    Freeing that block as written merges it into the sentinel: the sentinel's
    size becomes 32 and the heap is no longer valid.
   */
  lemma SentinelMergeAsWritten()
    ensures Valid(FirstBlockHeap())
    ensures UFreeAsWritten(FirstBlockHeap(), 48).mem[16] == Header(32, false, NULL)
    ensures !SentinelOk(UFreeAsWritten(FirstBlockHeap(), 48))
  {
    FirstBlockHeapReached();
    SentinelMergeSteps();
  }

  /** The corrected walk splices the block at 32 in after the sentinel, and the forward test finds nothing. */
  lemma SentinelSpliceSteps()
    requires Valid(FirstBlockHeap())
    ensures UFree(FirstBlockHeap(), 48) == FirstBlockSpliced()
  {
    UFreeAllocated(FirstBlockHeap(), 48);
    FirstBlockWalk();
    FirstBlockSplice();
  }

  /** Splicing the block at 32 in after the sentinel, and the forward test that then finds nothing. */
  lemma FirstBlockSplice()
    ensures Linked(FirstBlockMarked())
    ensures Splice(FirstBlockMarked(), 0, 32) == FirstBlockSpliced()
    ensures Linked(FirstBlockSpliced())
    ensures MergeForward(FirstBlockSpliced(), 1) == FirstBlockSpliced()
  {
    var s := Splice(FirstBlockMarked(), 0, 32);
    assert s.free == [16, 32];
    assert s.mem == FirstBlockSpliced().mem;
    var t := FirstBlockSpliced();
    assert t.free[0] == 16 && t.free[1] == 32;
    assert End(t.mem, 32) != NULL;
  }

  /** The corrected ufree splices the block in after the sentinel, and the heap stays valid. */
  lemma SentinelSpliceCorrected()
    ensures Valid(FirstBlockHeap())
    ensures UFree(FirstBlockHeap(), 48)
            == Heap(map[16 := Header(0, false, 32), 32 := Header(16, false, NULL)], [16, 32], 64)
    ensures Valid(UFree(FirstBlockHeap(), 48))
  {
    FirstBlockHeapReached();
    SentinelSpliceSteps();
    UFreeValid(FirstBlockHeap(), 48);
  }

  /*
    The scaling finding: a free 32-byte block at 32 followed directly by an
    allocated 16-byte block at 80.
   */

  /** A free block at 32 touching an allocated block at 80. */
  function TouchingHeap(): Heap
  {
    Heap(map[16 := Header(0, false, 32), 32 := Header(32, false, NULL), 80 := Header(16, true, NULL)], [16, 32], 112)
  }

  /** The touching heap keeps every invariant: its two touching blocks are not both free. */
  lemma TouchingHeapValid()
    ensures Valid(TouchingHeap())
  {
    TouchingLists();
    TouchingLayout();
  }

  /** Its free list: sentinel at 16, then the block at 32. */
  lemma TouchingLists()
    ensures var h := TouchingHeap();
            Linked(h) && SentinelOk(h) && Ascending(h.free) && FreeListExact(h) && Detached(h) && Coalesced(h)
  {
    var h := TouchingHeap();
    assert h.free[0] == 16 && h.free[1] == 32;
    assert forall a :: a in h.mem ==> a == 16 || a == 32 || a == 80;
  }

  /** Its blocks: in bounds, aligned, and not overlapping. */
  lemma TouchingLayout()
    ensures var h := TouchingHeap();
            Disjoint(h.mem) && Bounded(h) && Aligned(h)
  {
    TouchingDisjoint();
    var h := TouchingHeap();
    assert forall a :: a in h.mem ==> a == 16 || a == 32 || a == 80;
  }

  /** No two of its three blocks overlap. */
  lemma TouchingDisjoint()
    ensures Disjoint(TouchingHeap().mem)
  {
    var h := TouchingHeap();
    assert forall a :: a in h.mem ==> a == 16 || a == 32 || a == 80;
  }

  /** The touching heap once deallocate has cleared the flag of the block at 80. */
  function TouchingMarked(): Heap
  {
    Heap(map[16 := Header(0, false, 32), 32 := Header(32, false, NULL), 80 := Header(16, false, NULL)], [16, 32], 112)
  }

  /** The marked heap with the block at 80 spliced in after the block at 32. */
  function TouchingSpliced(): Heap
  {
    Heap(map[16 := Header(0, false, 32), 32 := Header(32, false, 80), 80 := Header(16, false, NULL)], [16, 32, 80], 112)
  }

  /** The block at 32 grown by the block at 80: one free block of 64 bytes. */
  function TouchingMerged(): Heap
  {
    Heap(map[16 := Header(0, false, 32), 32 := Header(64, false, NULL)], [16, 32], 112)
  }

  /** ufree of 96 walks to the block at 32 and clears the flag of the block at 80. */
  lemma TouchingWalk()
    ensures var h0 := TouchingMarked();
            && Linked(TouchingHeap())
            && FindPred(TouchingHeap(), 80, 0) == 1
            && MarkFree(TouchingHeap(), 80) == h0
            && Linked(h0) && Ascending(h0.free) && Aligned(h0)
  {
    TouchingPred();
    TouchingMarkedShape();
    var h, h0 := TouchingHeap(), TouchingMarked();
    assert h.mem[80 := h.mem[80].(alloc := false)] == h0.mem;
  }

  /** The walk passes the sentinel and stops at the block at 32, the last node. */
  lemma TouchingPred()
    ensures Linked(TouchingHeap()) && FindPred(TouchingHeap(), 80, 0) == 1
  {
    TouchingLists();
    var h := TouchingHeap();
    assert h.free[0] == 16 && h.free[1] == 32;
    assert FindPred(h, 80, 1) == 1;
  }

  /** The marked heap's list is linked and ascending, and its blocks aligned. */
  lemma TouchingMarkedShape()
    ensures var h0 := TouchingMarked();
            Linked(h0) && Ascending(h0.free) && Aligned(h0)
  {
    var h0 := TouchingMarked();
    assert forall a :: a in h0.mem ==> a == 16 || a == 32 || a == 80;
    assert h0.free[0] == 16 && h0.free[1] == 32;
  }

  /** As written, the scaled test looks at 560, so the block at 80 is spliced in and not merged. */
  lemma ScaledSpliceSteps()
    requires Valid(TouchingHeap())
    ensures UFreeAsWritten(TouchingHeap(), 96) == TouchingSpliced()
  {
    UFreeAsWrittenAllocated(TouchingHeap(), 96);
    TouchingWalk();
    var h0 := TouchingMarked();
    assert ScaledEnd(h0.mem, 32) == 560;
    TouchingSplice();
  }

  /** Splicing the block at 80 in, and the scaled forward test that then finds nothing. */
  lemma TouchingSplice()
    ensures Linked(TouchingMarked())
    ensures Splice(TouchingMarked(), 1, 80) == TouchingSpliced()
    ensures Linked(TouchingSpliced()) && Aligned(TouchingSpliced())
    ensures MergeForwardAsWritten(TouchingSpliced(), 2) == TouchingSpliced()
    ensures !Coalesced(TouchingSpliced())
  {
    TouchingWalk();
    var s := Splice(TouchingMarked(), 1, 80);
    assert s.free == [16, 32, 80];
    assert s.mem == TouchingSpliced().mem;
    var t := TouchingSpliced();
    assert forall a :: a in t.mem ==> a == 16 || a == 32 || a == 80;
    assert t.free[0] == 16 && t.free[1] == 32 && t.free[2] == 80;
    assert ScaledEnd(t.mem, 80) == 352;
    assert End(t.mem, t.free[1]) == t.free[2];
  }

  /**
    Freeing the block at 80 as written: the scaled test looks 560 bytes past
    the free block instead of 80, so the two touching free blocks are not
    merged and the heap is no longer coalesced.
   */
  lemma ScaledAdjacencyAsWritten()
    ensures Valid(TouchingHeap())
    ensures var r := UFreeAsWritten(TouchingHeap(), 96);
            r.free == [16, 32, 80] && Linked(r) && !Coalesced(r)
  {
    TouchingHeapValid();
    ScaledSpliceSteps();
    TouchingSplice();
  }

  /** The corrected test sees the block at 80 touch the block at 32 and merges it back. */
  lemma TouchingMergeSteps()
    requires Valid(TouchingHeap())
    ensures UFree(TouchingHeap(), 96) == TouchingMerged()
  {
    UFreeAllocated(TouchingHeap(), 96);
    TouchingWalk();
    TouchingBackMerge();
  }

  /** The block at 80 merged back into the block at 32, and the forward test that then finds nothing. */
  lemma TouchingBackMerge()
    ensures End(TouchingMarked().mem, 32) == 80
    ensures Linked(MergeBack(TouchingMarked(), 32, 80))
    ensures MergeBack(TouchingMarked(), 32, 80) == TouchingMerged()
    ensures MergeForward(TouchingMerged(), 1) == TouchingMerged()
  {
    var m := MergeBack(TouchingMarked(), 32, 80);
    assert m.mem == TouchingMerged().mem;
    var t := TouchingMerged();
    assert t.free[0] == 16 && t.free[1] == 32;
    assert End(t.mem, 32) != NULL;
  }

  /** The corrected ufree merges the freed block into the free block before it. */
  lemma ScaledAdjacencyCorrected()
    ensures Valid(TouchingHeap())
    ensures UFree(TouchingHeap(), 96)
            == Heap(map[16 := Header(0, false, 32), 32 := Header(64, false, NULL)], [16, 32], 112)
  {
    TouchingHeapValid();
    TouchingMergeSteps();
  }

  /*
    The mask finding: an allocated empty block at 64 (umalloc(0) gives one)
    sits right before a free block of 2^28 - 16 bytes.
   */

  /** An empty allocated block at 64 touching a free block of 2^28 - 16 bytes at 80. */
  function LargeNeighbourHeap(): Heap
  {
    Heap(map[16 := Header(0, false, 80), 32 := Header(16, true, NULL), 64 := Header(0, true, NULL),
             80 := Header(0x0FFF_FFF0, false, NULL)],
         [16, 80], 0x1000_0050)
  }

  /** The large-neighbour heap keeps every invariant. */
  lemma LargeNeighbourHeapValid()
    ensures Valid(LargeNeighbourHeap())
  {
    LargeNeighbourLists();
    LargeNeighbourLayout();
  }

  /** Its free list: sentinel at 16, then the large block at 80. */
  lemma LargeNeighbourLists()
    ensures var h := LargeNeighbourHeap();
            Linked(h) && SentinelOk(h) && Ascending(h.free) && FreeListExact(h) && Detached(h) && Coalesced(h)
  {
    var h := LargeNeighbourHeap();
    assert h.free[0] == 16 && h.free[1] == 80;
    assert forall a :: a in h.mem ==> a == 16 || a == 32 || a == 64 || a == 80;
  }

  /** Its blocks: in bounds, aligned, and not overlapping. */
  lemma LargeNeighbourLayout()
    ensures var h := LargeNeighbourHeap();
            Disjoint(h.mem) && Bounded(h) && Aligned(h)
  {
    LargeNeighbourDisjoint();
    LargeNeighbourBounded();
    LargeNeighbourAligned();
  }

  /** No two of its four blocks overlap. */
  lemma LargeNeighbourDisjoint()
    ensures Disjoint(LargeNeighbourHeap().mem)
  {
    var h := LargeNeighbourHeap();
    assert forall a :: a in h.mem ==> a == 16 || a == 32 || a == 64 || a == 80;
  }

  /** All four blocks end below the heap end. */
  lemma LargeNeighbourBounded()
    ensures Bounded(LargeNeighbourHeap())
  {
    var h := LargeNeighbourHeap();
    assert forall a :: a in h.mem ==> a == 16 || a == 32 || a == 64 || a == 80;
  }

  /** All four headers and sizes are 16-byte aligned. */
  lemma LargeNeighbourAligned()
    ensures Aligned(LargeNeighbourHeap())
  {
    var h := LargeNeighbourHeap();
    assert forall a :: a in h.mem ==> a == 16 || a == 32 || a == 64 || a == 80;
  }

  /** The large-neighbour heap once deallocate has cleared the flag of the block at 64. */
  function LargeNeighbourMarked(): Heap
  {
    Heap(map[16 := Header(0, false, 80), 32 := Header(16, true, NULL), 64 := Header(0, false, NULL),
             80 := Header(0x0FFF_FFF0, false, NULL)],
         [16, 80], 0x1000_0050)
  }

  /** The marked heap with the block at 64 spliced in after the sentinel. */
  function LargeNeighbourSpliced(): Heap
  {
    Heap(map[16 := Header(0, false, 64), 32 := Header(16, true, NULL), 64 := Header(0, false, 80),
             80 := Header(0x0FFF_FFF0, false, NULL)],
         [16, 64, 80], 0x1000_0050)
  }

  /** The spliced heap after the forward merge, with the merged size 2^28 stored as `merged`. */
  function LargeNeighbourMerged(merged: nat): Heap
  {
    Heap(map[16 := Header(0, false, 64), 32 := Header(16, true, NULL), 64 := Header(merged, false, NULL)],
         [16, 64], 0x1000_0050)
  }

  /** ufree of 80 walks no further than the sentinel and clears the flag of the block at 64. */
  lemma LargeNeighbourWalk()
    ensures Linked(LargeNeighbourHeap())
    ensures FindPred(LargeNeighbourHeap(), 64, 0) == 0
    ensures MarkFree(LargeNeighbourHeap(), 64) == LargeNeighbourMarked()
  {
    LargeNeighbourLists();
    var h := LargeNeighbourHeap();
    assert h.mem[h.free[0]].next == 80;
    assert h.mem[64 := h.mem[64].(alloc := false)] == LargeNeighbourMarked().mem;
  }

  /** The block at 64 does not touch the sentinel, on either reading, so it is spliced in. */
  lemma LargeNeighbourSplice()
    ensures var h0 := LargeNeighbourMarked();
            && Linked(h0) && Ascending(h0.free) && Aligned(h0)
            && ScaledEnd(h0.mem, 16) != 64 && End(h0.mem, 16) != 64
            && Splice(h0, 0, 64) == LargeNeighbourSpliced()
  {
    LargeNeighbourMarkedShape();
    var s := Splice(LargeNeighbourMarked(), 0, 64);
    assert s.free == [16, 64, 80];
    assert s.mem == LargeNeighbourSpliced().mem;
  }

  /** The marked heap's list is linked and ascending, and its blocks aligned. */
  lemma LargeNeighbourMarkedShape()
    ensures var h0 := LargeNeighbourMarked();
            && Linked(h0) && Ascending(h0.free) && Aligned(h0)
  {
    var h0 := LargeNeighbourMarked();
    assert forall a :: a in h0.mem ==> a == 16 || a == 32 || a == 64 || a == 80;
    assert h0.free[0] == 16 && h0.free[1] == 80;
  }

  /** The spliced block touches its neighbour, on either reading, and is merged with it. */
  lemma LargeNeighbourTouch()
    ensures var s := LargeNeighbourSpliced();
            && Linked(s) && Aligned(s)
            && ScaledEnd(s.mem, 64) == 80 && End(s.mem, 64) == 80
  {
    var s := LargeNeighbourSpliced();
    assert forall a :: a in s.mem ==> a == 16 || a == 32 || a == 64 || a == 80;
    assert s.free[0] == 16 && s.free[1] == 64 && s.free[2] == 80;
  }

  /** The forward merge as written stores the size 2^28 through the mask, as 0. */
  lemma MaskedForward()
    ensures Linked(LargeNeighbourSpliced()) && Aligned(LargeNeighbourSpliced())
    ensures MergeForwardAsWritten(LargeNeighbourSpliced(), 1) == LargeNeighbourMerged(0)
  {
    LargeNeighbourTouch();
    var s := LargeNeighbourSpliced();
    assert MaskedSize(0x1000_0000) == 0;
    var m := AbsorbAsWritten(s, 1);
    assert m.free == [16, 64];
    assert m.mem == LargeNeighbourMerged(0).mem;
  }

  /** The corrected forward merge stores the full size 2^28. */
  lemma FullForward()
    ensures Linked(LargeNeighbourSpliced())
    ensures MergeForward(LargeNeighbourSpliced(), 1) == LargeNeighbourMerged(0x1000_0000)
  {
    LargeNeighbourTouch();
    var s := LargeNeighbourSpliced();
    var m := Absorb(s, 1);
    assert m.free == [16, 64];
    assert m.mem == LargeNeighbourMerged(0x1000_0000).mem;
  }

  /**
    Freeing the block at 64 as written: it is spliced in and absorbs its
    neighbour, but the merged size 2^28 is stored through the mask as 0, so
    the neighbour's bytes drop out of the heap's free space.
   */
  lemma MaskedMergeAsWritten()
    ensures Valid(LargeNeighbourHeap())
    ensures UFreeAsWritten(LargeNeighbourHeap(), 80).free == [16, 64]
    ensures UFreeAsWritten(LargeNeighbourHeap(), 80).mem[64] == Header(0, false, NULL)
  {
    LargeNeighbourHeapValid();
    MaskedMergeSteps();
  }

  /** The steps of MaskedMergeAsWritten, on the heaps in between. */
  lemma MaskedMergeSteps()
    requires Valid(LargeNeighbourHeap())
    ensures UFreeAsWritten(LargeNeighbourHeap(), 80) == LargeNeighbourMerged(0)
  {
    var h := LargeNeighbourHeap();
    UFreeAsWrittenAllocated(h, 80);
    LargeNeighbourWalk();
    LargeNeighbourSplice();
    MaskedForward();
  }

  /** The corrected ufree keeps the full merged size. */
  lemma MaskedMergeCorrected()
    ensures Valid(LargeNeighbourHeap())
    ensures UFree(LargeNeighbourHeap(), 80).free == [16, 64]
    ensures UFree(LargeNeighbourHeap(), 80).mem[64] == Header(0x1000_0000, false, NULL)
  {
    LargeNeighbourHeapValid();
    FullMergeSteps();
  }

  /** The steps of MaskedMergeCorrected, on the heaps in between. */
  lemma FullMergeSteps()
    requires Valid(LargeNeighbourHeap())
    ensures UFree(LargeNeighbourHeap(), 80) == LargeNeighbourMerged(0x1000_0000)
  {
    var h := LargeNeighbourHeap();
    UFreeAllocated(h, 80);
    LargeNeighbourWalk();
    LargeNeighbourSplice();
    FullForward();
  }
}
