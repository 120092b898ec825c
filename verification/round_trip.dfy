/**
  umalloc followed by ufree of the pointer it returned. When umalloc reuses a
  free block (split or unlink), ufree puts the heap back exactly as it was;
  when it extends the heap, the bytes below the old heap end that were free
  are free again. Also the first-fit walk's treatment of an exact-size block.
 */
module RoundTrip {
  import opened Memory
  import opened Blocks
  import opened Heaps
  import opened Allocator
  import opened AllocatorProofs
  import opened Release
  import opened ReleaseProofs

  /** The walk of ufree toward an address strictly between two list neighbours stops at the lower one. */
  lemma FindPredBetween(h: Heap, i: int, x: Addr)
    requires Linked(h) && Ascending(h.free) && 0 <= i < |h.free|
    requires h.free[i] < x && (i + 1 < |h.free| ==> x < h.free[i + 1])
    ensures FindPred(h, x, 0) == i
  {
    var k := FindPred(h, x, 0);
    if k < i {
      assert false;
    }
    if k > i {
      assert false;
    }
  }

  /** After unlinking position i + 1, the walk toward the unlinked block stops at position i. */
  lemma FindPredUnlinked(h: Heap, i: nat)
    requires Linked(h) && Ascending(h.free) && i + 1 < |h.free|
    ensures Linked(Unlink(h, i).heap)
    ensures FindPred(Unlink(h, i).heap, h.free[i + 1], 0) == i
  {
    UnlinkLinked(h, i);
    var h1 := Unlink(h, i).heap;
    if i + 1 < |h1.free| {
      assert h1.free[i + 1] == h.free[i + 2];
    }
    FindPredBetween(h1, i, h.free[i + 1]);
  }

  /** Merging the carved block back into its remainder gives the heap before the split. */
  lemma SplitMergeBack(h: Heap, j: int, asize: nat)
    requires Linked(h) && Disjoint(h.mem) && FreeListExact(h) && SplitCase(h, j, asize)
    ensures var c := Split(h, h.free[j], asize);
            && c.block in c.heap.mem && h.free[j] in c.heap.mem && c.block != h.free[j]
            && MergeBack(MarkFree(c.heap, c.block), h.free[j], c.block) == h
  {
    var b := h.free[j];
    SplitCarves(h, j, asize);
    SplitFresh(h, j, asize);
    var c := Split(h, b, asize);
    assert !h.mem[b].alloc by { assert b in h.free; }
    var m := MergeBack(MarkFree(c.heap, c.block), b, c.block);
    assert m.mem.Keys == h.mem.Keys;
    assert m.mem[b] == h.mem[b];
    assert m.mem == h.mem;
  }

  /** The forward step changes nothing on a valid heap. */
  lemma MergeForwardValidNoop(h: Heap, k: nat)
    requires Linked(h) && Coalesced(h) && 1 <= k < |h.free|
    ensures MergeForward(h, k) == h
  {
    LinkedNext(h, k);
    if k + 1 < |h.free| {
      assert End(h.mem, h.free[k]) < h.free[k + 1];
    }
  }

  /**
    `p` is the payload of a block of the valid heap `h` whose list predecessor
    is position `i`, and ufree of `p` is the coalescing step from there.
   */
  ghost predicate FreesInto(h: Heap, p: Addr, i: int)
  {
    && Valid(h) && p >= H && GetBlock(p) in h.mem && GetBlock(p) != h.free[0]
    && Releasing(h, GetBlock(p), i)
    && Linked(MarkFree(h, GetBlock(p)))
    && UFree(h, p) == Coalesce(MarkFree(h, GetBlock(p)), i, GetBlock(p))
  }

  /** `r.payload` is a block of the valid heap `r.heap`, and ufree of it gives `h`. */
  ghost predicate FreeUndoes(r: Grant, h: Heap)
  {
    && Valid(r.heap) && r.payload >= H
    && GetBlock(r.payload) in r.heap.mem && GetBlock(r.payload) != r.heap.free[0]
    && UFree(r.heap, r.payload) == h
  }

  /** An allocated block of a valid heap frees into the position the walk finds. */
  lemma FreesIntoWalk(h: Heap, b: Addr, i: int)
    requires Valid(h) && b in h.mem && h.mem[b].alloc
    requires FindPred(h, b, 0) == i
    ensures FreesInto(h, GetPayload(b), i)
  {
    var p := GetPayload(b);
    PayloadRoundTrip(b);
    assert b != h.free[0] by { assert !h.mem[h.free[0]].alloc; }
    UFreeAllocated(h, p);
  }

  /** After a split, ufree of the carved block walks to the remainder and goes on to coalesce. */
  lemma SplitFreed(h: Heap, j: int, asize: nat)
    requires Valid(h) && SplitCase(h, j, asize)
    ensures FreesInto(Split(h, h.free[j], asize).heap, GetPayload(Split(h, h.free[j], asize).block), j)
  {
    SplitValid(h, j, asize);
    SplitCarves(h, j, asize);
    var c := Split(h, h.free[j], asize);
    if j + 1 < |h.free| {
      SuccessorAfterEnd(h, j);
    }
    FindPredBetween(c.heap, j, c.block);
    FreesIntoWalk(c.heap, c.block, j);
  }

  /** The coalescing step of ufree, from the remainder of a split, merges the carved block back into it. */
  lemma SplitCoalesces(h: Heap, j: int, asize: nat)
    requires Linked(h) && Disjoint(h.mem) && FreeListExact(h) && Ascending(h.free) && Coalesced(h)
    requires SplitCase(h, j, asize)
    ensures CoalescesTo(MarkFree(Split(h, h.free[j], asize).heap, Split(h, h.free[j], asize).block), j,
                        Split(h, h.free[j], asize).block, h)
  {
    var b := h.free[j];
    var c := Split(h, b, asize);
    var h1, nb := c.heap, c.block;
    var h0 := MarkFree(h1, nb);
    SplitCarves(h, j, asize);
    assert Linked(h0) by {
      SplitLinked(h, j, asize);
      MarkFreeLinked(h1, nb);
    }
    assert nb !in h0.free by {
      SplitFresh(h, j, asize);
    }
    assert Coalesce(h0, j, nb) == MergeForward(MergeBack(h0, b, nb), j) by {
      assert End(h0.mem, b) == nb;
      CoalesceBackPath(h0, j, nb);
    }
    assert MergeBack(h0, b, nb) == h by {
      SplitMergeBack(h, j, asize);
    }
    MergeForwardValidNoop(h, j);
  }

  /** umalloc by splitting, then ufree of the result, restores the heap. */
  lemma SplitThenFree(h: Heap, j: int, asize: nat)
    requires Valid(h) && SplitCase(h, j, asize)
    ensures FreeUndoes(Grant(Split(h, h.free[j], asize).heap, GetPayload(Split(h, h.free[j], asize).block)), h)
  {
    SplitFreed(h, j, asize);
    SplitCoalesces(h, j, asize);
    PayloadRoundTrip(Split(h, h.free[j], asize).block);
  }

  /** After unlinking, ufree of the block walks to its old predecessor and goes on to coalesce. */
  lemma UnlinkFreed(h: Heap, i: nat)
    requires Valid(h) && i + 1 < |h.free|
    ensures FreesInto(Unlink(h, i).heap, GetPayload(Unlink(h, i).block), i)
  {
    UnlinkValid(h, i);
    FindPredUnlinked(h, i);
    FreesIntoWalk(Unlink(h, i).heap, Unlink(h, i).block, i);
  }

  /** Removing an element and inserting it again at the same position gives the list back. */
  lemma InsertRemoved(s: seq<Addr>, k: nat)
    requires k < |s|
    ensures InsertAt(RemoveAt(s, k), k, s[k]) == s
  {
    var r := InsertAt(RemoveAt(s, k), k, s[k]);
    assert forall j :: 0 <= j < |s| ==> r[j] == s[j];
  }

  /** What an unlink of position i + 1 did to `h`, giving `h0`. */
  ghost predicate UnlinkedAt(h: Heap, h0: Heap, i: nat)
  {
    && Linked(h0) && i + 1 < |h.free| && i < |h0.free|
    && h0.free == RemoveAt(h.free, i + 1) && h0.brk == h.brk
    && h.free[i] != h.free[i + 1] && h.free[i + 1] in h.mem
    && h0.mem.Keys == h.mem.Keys
    && h.mem[h.free[i]].next == h.free[i + 1]
    && h.mem[h.free[i + 1]].next == Succ(h.free, i + 1)
    && h0.mem[h.free[i]] == h.mem[h.free[i]].(next := Succ(h.free, i + 1))
    && h0.mem[h.free[i + 1]] == h.mem[h.free[i + 1]].(next := NULL)
    && forall a :: a in h.mem && a != h.free[i] && a != h.free[i + 1] ==> h0.mem[a] == h.mem[a]
  }

  /**
    Splice undoes an unlink: when `h0` is `h` with position i + 1 taken off the
    list (its predecessor linking past it, its own link cleared), splicing it
    back after position i gives `h`.
   */
  lemma SpliceUndoesUnlink(h: Heap, h0: Heap, i: nat)
    requires UnlinkedAt(h, h0, i)
    ensures Splice(h0, i, h.free[i + 1]) == h
  {
    var s := Splice(h0, i, h.free[i + 1]);
    SpliceRestoresList(h, h0, i);
    SpliceRestoresHeaders(h, h0, i);
    assert s.free == h.free && s.mem == h.mem;
  }

  /** The list part of SpliceUndoesUnlink. */
  lemma SpliceRestoresList(h: Heap, h0: Heap, i: nat)
    requires UnlinkedAt(h, h0, i)
    ensures Splice(h0, i, h.free[i + 1]).free == h.free
  {
    InsertRemoved(h.free, i + 1);
  }

  /** The header part of SpliceUndoesUnlink. */
  lemma SpliceRestoresHeaders(h: Heap, h0: Heap, i: nat)
    requires UnlinkedAt(h, h0, i)
    ensures Splice(h0, i, h.free[i + 1]).mem == h.mem
  {
    var f := h.free;
    var s := Splice(h0, i, f[i + 1]);
    forall a | a in h.mem
      ensures s.mem[a] == h.mem[a]
    {
      if a == f[i + 1] && i + 1 < |h0.free| {
        assert h0.free[i + 1] == f[i + 2];
      }
    }
    assert s.mem == h.mem;
  }

  /** Splicing the unlinked block back after its old predecessor gives the heap before the unlink. */
  lemma UnlinkSpliceBack(h: Heap, i: nat)
    requires Linked(h) && Ascending(h.free) && FreeListExact(h) && i + 1 < |h.free|
    ensures var c := Unlink(h, i);
            var h0 := MarkFree(c.heap, c.block);
            && Linked(h0) && i < |h0.free| && h0.free[i] != c.block
            && Splice(h0, i, c.block) == h
  {
    var f := h.free;
    var c := Unlink(h, i);
    var b := c.block;
    UnlinkLinked(h, i);
    MarkFreeLinked(c.heap, b);
    var h0 := MarkFree(c.heap, b);
    assert f[i] < b;
    LinkedNext(h, i);
    LinkedNext(h, i + 1);
    assert !h.mem[b].alloc by { assert b in f; }
    SpliceUndoesUnlink(h, h0, i);
  }

  /** ufree of an unlinked block does not merge it into its old predecessor: they did not touch. */
  lemma UnlinkNoBackMerge(h: Heap, i: nat)
    requires Linked(h) && Ascending(h.free) && Coalesced(h) && i + 1 < |h.free|
    ensures var c := Unlink(h, i);
            var h0 := MarkFree(c.heap, c.block);
            && i < |h0.free| && h0.free[i] in h0.mem
            && !(1 <= i && End(h0.mem, h0.free[i]) == c.block)
  {
    var c := Unlink(h, i);
    assert h.free[i] < h.free[i + 1];
    if 1 <= i {
      assert End(h.mem, h.free[i]) < h.free[i + 1];
    }
  }

  /** The coalescing step of ufree applies to `b` after position `i` of `h0`, and rebuilds `h`. */
  ghost predicate CoalescesTo(h0: Heap, i: int, b: Addr, h: Heap)
  {
    && Linked(h0) && Ascending(h0.free) && 0 <= i < |h0.free|
    && b in h0.mem && b != NULL && b !in h0.free
    && (i + 1 == |h0.free| ==> h0.mem[b].next == NULL)
    && Coalesce(h0, i, b) == h
  }

  /** The unlinked block is no longer on the free list. */
  lemma UnlinkedOffList(h: Heap, i: nat)
    requires Linked(h) && Ascending(h.free) && i + 1 < |h.free|
    ensures Unlink(h, i).block !in Unlink(h, i).heap.free
  {
    var c := Unlink(h, i);
    forall k | 0 <= k < |c.heap.free|
      ensures c.heap.free[k] != c.block
    {
      if k <= i {
        AscendingIndex(h.free, k, i + 1);
      } else {
        AscendingIndex(h.free, k + 1, i + 1);
      }
    }
  }

  /** The coalescing step of ufree, from the unlinked block's old predecessor, rebuilds the heap. */
  lemma UnlinkCoalesces(h: Heap, i: nat)
    requires Linked(h) && Ascending(h.free) && FreeListExact(h) && Coalesced(h) && i + 1 < |h.free|
    ensures CoalescesTo(MarkFree(Unlink(h, i).heap, Unlink(h, i).block), i, Unlink(h, i).block, h)
  {
    var c := Unlink(h, i);
    var h1, b := c.heap, c.block;
    var h0 := MarkFree(h1, b);
    assert Linked(h0) && Ascending(h0.free) by {
      UnlinkLinked(h, i);
      UnlinkAscending(h, i);
      MarkFreeLinked(h1, b);
    }
    UnlinkedOffList(h, i);
    UnlinkNoBackMerge(h, i);
    UnlinkSpliceBack(h, i);
    SpliceRebuilds(h0, i, b, h);
  }

  /**
    When splicing `b` back in gives a coalesced heap `h`, the coalescing step
    from position `i` gives exactly `h`: it splices and the forward test fails.
   */
  lemma SpliceRebuilds(h0: Heap, i: nat, b: Addr, h: Heap)
    requires Linked(h0) && Ascending(h0.free) && i < |h0.free|
    requires b in h0.mem && b != NULL && b !in h0.free
    requires i + 1 == |h0.free| ==> h0.mem[b].next == NULL
    requires !(1 <= i && End(h0.mem, h0.free[i]) == b)
    requires Linked(h) && Coalesced(h) && i + 1 < |h.free| && Splice(h0, i, b) == h
    ensures Coalesce(h0, i, b) == h
  {
    CoalesceSplicePath(h0, i, b);
    MergeForwardValidNoop(h, i + 1);
  }

  /** umalloc by unlinking, then ufree of the result, restores the heap. */
  lemma UnlinkThenFree(h: Heap, i: nat)
    requires Valid(h) && i + 1 < |h.free|
    ensures FreeUndoes(Grant(Unlink(h, i).heap, GetPayload(Unlink(h, i).block)), h)
  {
    UnlinkFreed(h, i);
    UnlinkCoalesces(h, i);
    PayloadRoundTrip(Unlink(h, i).block);
  }

  /** When some free block fits, placing a request and freeing the placed block restores the heap. */
  lemma PlaceThenFree(h: Heap, asize: nat)
    requires Valid(h) && asize % ALIGNMENT == 0 && !NoFit(h, H + asize)
    ensures FreeUndoes(Grant(Place(h, asize).heap, GetPayload(Place(h, asize).block)), h)
  {
    FindFitFirst(h, H + asize);
    var i := FindFit(h, H + asize, 0);
    LinkedNext(h, i);
    var succ := h.free[i + 1];
    AlignFixed(asize);
    if h.mem[succ].size > H + asize {
      assert Place(h, asize) == Split(h, succ, asize);
      SplitThenFree(h, i + 1, asize);
    } else {
      assert Place(h, asize) == Unlink(h, i);
      UnlinkThenFree(h, i);
    }
  }

  /**
    Whenever umalloc finds a fitting free block (it does not extend the heap),
    ufree of the pointer it returns puts the heap back exactly as it was.
   */
  lemma UFreeUndoesUMalloc(h: Heap, size: nat)
    requires Valid(h) && !NoFit(h, H + Align(size))
    ensures FreeUndoes(UMalloc(h, size), h)
  {
    PlaceThenFree(h, Align(size));
  }

  /** The pointer umalloc returns may be passed to ufree: it names an allocated block of a valid heap. */
  ghost predicate Freeable(r: Grant)
  {
    && Valid(r.heap) && r.payload >= H
    && GetBlock(r.payload) in r.heap.mem && GetBlock(r.payload) != r.heap.free[0]
    && r.heap.mem[GetBlock(r.payload)].alloc
  }

  /** Every pointer umalloc returns from a valid heap is freeable. */
  lemma UMallocFreeable(h: Heap, size: nat)
    requires Valid(h)
    ensures Freeable(UMalloc(h, size))
  {
    UMallocValid(h, size);
    var r := UMalloc(h, size);
    assert !r.heap.mem[r.heap.free[0]].alloc;
  }

  /** What umalloc does to free bytes, gathered: it takes exactly its block's bytes, free or beyond the heap end. */
  lemma UMallocTakes(h: Heap, size: nat, x: int)
    requires Valid(h)
    ensures var r := UMalloc(h, size);
            && (FreeByte(r.heap, x) <==> FreeByte(h, x) && !InBlock(r.heap.mem, GetBlock(r.payload), x))
            && (InBlock(r.heap.mem, GetBlock(r.payload), x) ==> FreeByte(h, x) || x >= h.brk)
            && (FreeByte(h, x) ==> x < h.brk)
  {
    UMallocFreeBytes(h, size, x);
    UMallocTakesFreeBytes(h, size, x);
    if FreeByte(h, x) {
      FreeByteBelowBrk(h, x);
    }
  }

  /**
    Below the heap end of `h`, the bytes free in `h2` are those free in `h`;
    at or above it, they are the bytes of the block `r` grants.
   */
  ghost predicate FreeBytesRestored(h: Heap, r: Grant, h2: Heap, x: int)
  {
    && (x < h.brk ==> (FreeByte(h2, x) <==> FreeByte(h, x)))
    && (x >= h.brk ==> (FreeByte(h2, x) <==> r.payload >= H && InBlock(r.heap.mem, GetBlock(r.payload), x)))
  }

  /** The step behind the free-bytes round trip: what umalloc took, ufree gives back. */
  lemma ComposeFreeBytes(h: Heap, r: Grant, h2: Heap, x: int)
    requires r.payload >= H
    requires FreeByte(r.heap, x) <==> FreeByte(h, x) && !InBlock(r.heap.mem, GetBlock(r.payload), x)
    requires InBlock(r.heap.mem, GetBlock(r.payload), x) ==> FreeByte(h, x) || x >= h.brk
    requires FreeByte(h, x) ==> x < h.brk
    requires FreeByte(h2, x) <==> FreeByte(r.heap, x) || InBlock(r.heap.mem, GetBlock(r.payload), x)
    ensures FreeBytesRestored(h, r, h2, x)
  {
  }

  /**
    umalloc then ufree of its pointer, counted in free bytes: below the old heap
    end exactly the bytes that were free are free again; above it, exactly the
    bytes of the block umalloc obtained by extending the heap.
   */
  lemma MallocThenFreeFreeBytes(h: Heap, size: nat, x: int)
    requires Valid(h)
    ensures Freeable(UMalloc(h, size))
    ensures FreeBytesRestored(h, UMalloc(h, size), UFree(UMalloc(h, size).heap, UMalloc(h, size).payload), x)
  {
    var r := UMalloc(h, size);
    UMallocTakes(h, size, x);
    UMallocFreeable(h, size);
    UFreeFreeBytes(r.heap, r.payload, x);
    ComposeFreeBytes(h, r, UFree(r.heap, r.payload), x);
  }


  /** A valid heap whose one free block holds exactly 16 payload bytes. */
  function ExactFitHeap(): (h: Heap)
    ensures h.free == [16, 32] && h.brk == 64
  {
    Heap(map[16 := Header(0, false, 32), 32 := Header(16, false, NULL)], [16, 32], 64)
  }

  /**
    The first-fit walk asks for a header's worth more than the request, so a
    free block of exactly the requested size is passed over: a 16-byte request
    extends the heap although a free 16-byte block is available.
   */
  lemma ExactFitSkipped()
    ensures Valid(ExactFitHeap())
    ensures ExactFitHeap().mem[32].size == Align(16)
    ensures NoFit(ExactFitHeap(), H + Align(16))
    ensures UMalloc(ExactFitHeap(), 16).payload == 80
    ensures UMalloc(ExactFitHeap(), 16).heap.brk == 96
  {
    var h := ExactFitHeap();
    ExactFitHeapValid();
    assert Align(16) == 16;
    var need := H + 16;
    assert NoFit(h, need) by {
      forall k
        ensures !Fits(h, need, k)
      {
        if 1 <= k < |h.free| {
          assert k == 1;
        }
      }
    }
    UMallocExtendPath(h, 16);
  }

  /** The exact-fit heap keeps every invariant. */
  lemma ExactFitHeapValid()
    ensures Valid(ExactFitHeap())
  {
    ExactFitLists();
    ExactFitLayout();
  }

  /** Its free list: sentinel at 16, then the block at 32. */
  lemma ExactFitLists()
    ensures var h := ExactFitHeap();
            Linked(h) && SentinelOk(h) && Ascending(h.free) && FreeListExact(h) && Detached(h) && Coalesced(h)
  {
    var h := ExactFitHeap();
    assert forall a :: a in h.mem ==> a == 16 || a == 32;
    assert h.free[0] == 16 && h.free[1] == 32;
  }

  /** Its two blocks: in bounds, aligned, and not overlapping. */
  lemma ExactFitLayout()
    ensures var h := ExactFitHeap();
            Disjoint(h.mem) && Bounded(h) && Aligned(h)
  {
    var h := ExactFitHeap();
    assert forall a :: a in h.mem ==> a == 16 || a == 32;
  }
}
