/**
  The allocation side of umalloc.c: uinit, extend, split and the first-fit
  umalloc, as pure transformers of the heap state.
 */
module Allocator {
  import opened Memory
  import opened Blocks
  import opened Heaps

  /** A heap after an operation that hands out a block, and that block's header address. */
  datatype Carve = Carve(heap: Heap, block: Addr)

  /** The result of umalloc: the new heap and the payload pointer given to the client. */
  datatype Grant = Grant(heap: Heap, payload: Addr)

  /**
    uinit: the growth primitive hands out one header's worth of bytes at the
    heap end, and put_block makes it the free, zero-size sentinel `free_head`.
    (put_block returns 0 here: the region is not null and 0 is aligned.)
   */
  function UInit(h: Heap): (r: Heap)
    requires h.brk != NULL
    ensures r.free == [h.brk]
    ensures r.brk == h.brk + H
    ensures h.brk in r.mem && r.mem[h.brk] == Header(0, false, NULL)
    ensures forall a :: a in h.mem && a != h.brk ==> a in r.mem && r.mem[a] == h.mem[a]
  {
    Heap(h.mem[h.brk := Header(0, false, NULL)], [h.brk], h.brk + H)
  }

  /**
    The first-fit walk of umalloc, from list position `i`: advance while the
    successor exists and its size is below `need`. It stops at the first node
    whose successor is big enough, or at the last node.
   */
  function FindFit(h: Heap, need: nat, i: nat): (j: nat)
    requires Linked(h) && i < |h.free|
    ensures i <= j < |h.free|
    ensures forall k :: i < k <= j ==> h.mem[h.free[k]].size < need
    ensures j + 1 < |h.free| ==> h.mem[h.free[j + 1]].size >= need
    decreases |h.free| - i
  {
    var next := h.mem[h.free[i]].next;
    LinkedNext(h, i);
    if next != NULL && h.mem[next].size < need then FindFit(h, need, i + 1) else i
  }

  /**
    extend: asks the growth primitive for a header plus ALIGN(size) bytes,
    which it hands out at the current heap end, and writes an allocated header
    there. The free list is not touched.
   */
  function Extend(h: Heap, size: nat): (r: Carve)
    ensures r.block == h.brk
    ensures r.heap.brk == h.brk + H + Align(size)
    ensures r.heap.free == h.free
    ensures r.block in r.heap.mem && r.heap.mem[r.block] == Header(Align(size), true, NULL)
    ensures forall a :: a in h.mem && a != h.brk ==> a in r.heap.mem && r.heap.mem[a] == h.mem[a]
    ensures r.heap.mem.Keys == h.mem.Keys + {h.brk}
  {
    var asize := Align(size);
    var p := h.brk;
    Carve(Heap(h.mem[p := Header(asize, true, NULL)], h.free, h.brk + H + asize), p)
  }

  /**
    split: when the block has at least one header's worth of room beyond the
    request, its free remainder stays at its own address with the shortened
    size and its link kept, and the allocated block of the requested size is
    placed right after the remainder's payload, so it ends where the original
    block ended. Otherwise the whole block is re-headed as allocated.
   */
  function Split(h: Heap, b: Addr, size: nat): (r: Carve)
    requires b in h.mem && Align(size) <= h.mem[b].size
    ensures r.heap.free == h.free && r.heap.brk == h.brk
    ensures r.block in r.heap.mem && r.heap.mem[r.block] == Header(Align(size), true, NULL)
    ensures r.block == b <==> h.mem[b].size - Align(size) < H
    ensures r.block != b ==>
              && b in r.heap.mem
              && r.heap.mem[b] == Header(h.mem[b].size - Align(size) - H, false, h.mem[b].next)
              && End(r.heap.mem, b) == r.block
              && End(r.heap.mem, r.block) == End(h.mem, b)
    ensures forall a :: a in h.mem && a != b && a != r.block ==> a in r.heap.mem && r.heap.mem[a] == h.mem[a]
    ensures r.heap.mem.Keys == h.mem.Keys + {r.block}
  {
    var asize := Align(size);
    var total := h.mem[b].size;
    if total - asize >= H then
      var rest := total - asize - H;
      var nb := GetPayload(b) + rest;
      Carve(h.(mem := h.mem[b := Header(rest, false, h.mem[b].next)][nb := Header(asize, true, NULL)]), nb)
    else
      Carve(h.(mem := h.mem[b := Header(asize, true, NULL)]), b)
  }

  /**
    The non-split path of umalloc: the successor of list position `i` is
    unlinked (`pred->next = succ->next`) and marked allocated.
   */
  function Unlink(h: Heap, i: nat): (r: Carve)
    requires Linked(h) && i + 1 < |h.free|
    ensures r.block == h.free[i + 1]
    ensures r.heap.free == RemoveAt(h.free, i + 1)
    ensures r.heap.brk == h.brk
    ensures r.heap.mem.Keys == h.mem.Keys
    ensures var b := r.block;
            && r.heap.mem[b].size == h.mem[b].size
            && r.heap.mem[b].alloc
            && r.heap.mem[b].next == NULL
    ensures h.free[i] != h.free[i + 1] ==>
              r.heap.mem[h.free[i]] == h.mem[h.free[i]].(next := Succ(h.free, i + 1))
    ensures forall a :: a in h.mem && a != h.free[i] && a != h.free[i + 1] ==> r.heap.mem[a] == h.mem[a]
  {
    var pred := h.free[i];
    var succ := h.mem[pred].next;
    LinkedNext(h, i);
    LinkedNext(h, i + 1);
    var mem1 := h.mem[pred := h.mem[pred].(next := h.mem[succ].next)];
    Carve(Heap(mem1[succ := mem1[succ].(alloc := true, next := NULL)], RemoveAt(h.free, i + 1), h.brk), succ)
  }

  /**
    Where umalloc takes an aligned request from: the walk, then one of the
    three paths.
   */
  function Place(h: Heap, asize: nat): (c: Carve)
    requires Linked(h) && asize % ALIGNMENT == 0
    ensures c.block in c.heap.mem
    ensures c.heap.mem[c.block].alloc && c.heap.mem[c.block].next == NULL
    ensures asize <= c.heap.mem[c.block].size <= asize + H
  {
    if |h.free| == 0 then Extend(h, asize)
    else
      var i := FindFit(h, H + asize, 0);
      var succ := h.mem[h.free[i]].next;
      LinkedNext(h, i);
      AlignFixed(asize);
      if succ == NULL then Extend(h, asize)
      else if h.mem[succ].size > H + asize then Split(h, succ, asize)
      else Unlink(h, i)
  }

  /**
    umalloc: round the request up, walk the free list from the sentinel, and
    then extend the heap (no successor fits, or uinit has not run), split the
    successor (it is larger than a header plus the request), or unlink it
    (it is exactly a header plus the request). Returns the payload pointer.
   */
  function UMalloc(h: Heap, size: nat): (r: Grant)
    requires Linked(h)
    ensures r.payload >= H
    ensures var b := GetBlock(r.payload);
            && b in r.heap.mem
            && r.heap.mem[b].alloc
            && r.heap.mem[b].next == NULL
            && Align(size) <= r.heap.mem[b].size <= Align(size) + H
  {
    var c := Place(h, Align(size));
    Grant(c.heap, GetPayload(c.block))
  }
}

/** Invariant preservation and the allocation-side properties of umalloc.c. */
module AllocatorProofs {
  import opened Memory
  import opened Blocks
  import opened Heaps
  import opened Allocator

  /** uinit on an empty heap yields a valid heap whose free list is just the sentinel. */
  lemma UInitValid(base: Addr)
    requires base != NULL && base % ALIGNMENT == 0
    ensures Valid(UInit(EmptyHeap(base)))
  {
    var h := UInit(EmptyHeap(base));
    assert h.mem == map[base := Header(0, false, NULL)];
  }

  /** extend keeps every invariant: the new block is allocated and lies past every old one. */
  lemma ExtendValid(h: Heap, size: nat)
    requires Valid(h)
    ensures Valid(Extend(h, size).heap)
  {
    var r := Extend(h, size).heap;
    ExtendLinked(h, size);
    ExtendLayout(h, size);
    ExtendMarks(h, size);
    ExtendCoalesced(h, size);
  }

  lemma ExtendMarks(h: Heap, size: nat)
    requires Linked(h) && SentinelOk(h) && Bounded(h) && FreeListExact(h) && Detached(h)
    ensures var r := Extend(h, size).heap;
            SentinelOk(r) && FreeListExact(r) && Detached(r)
  {
    var r := Extend(h, size).heap;
    assert h.brk !in h.mem;
    assert h.brk !in h.free;
  }

  lemma ExtendLinked(h: Heap, size: nat)
    requires Linked(h) && Bounded(h)
    ensures Linked(Extend(h, size).heap)
  {
    var r := Extend(h, size).heap;
    forall k | 0 <= k < |r.free|
      ensures r.free[k] != NULL && r.free[k] in r.mem
    {
      assert r.free[k] in h.mem;
    }
    forall i, j | 0 <= i && j == i + 1 && j < |r.free|
      ensures r.mem[r.free[i]].next == r.free[j]
    {
      assert r.free[i] in h.mem;
    }
  }

  lemma ExtendLayout(h: Heap, size: nat)
    requires Disjoint(h.mem) && Bounded(h) && Aligned(h)
    ensures var r := Extend(h, size).heap;
            Disjoint(r.mem) && Bounded(r) && Aligned(r)
  {
    var r := Extend(h, size).heap;
    var p := h.brk;
    forall a, c | a in r.mem && c in r.mem && a < c
      ensures End(r.mem, a) <= c
    {
      if c == p {
        assert End(r.mem, a) == End(h.mem, a);
      }
    }
  }

  lemma ExtendCoalesced(h: Heap, size: nat)
    requires Linked(h) && Bounded(h) && Coalesced(h)
    ensures Linked(Extend(h, size).heap) && Coalesced(Extend(h, size).heap)
  {
    var r := Extend(h, size).heap;
    ExtendLinked(h, size);
    forall i, j | 1 <= i && j == i + 1 && j < |r.free|
      ensures End(r.mem, r.free[i]) < r.free[j]
    {
      assert End(h.mem, h.free[i]) < h.free[j];
    }
  }

  /** The unlink path keeps every invariant. */
  lemma UnlinkValid(h: Heap, i: nat)
    requires Valid(h) && i + 1 < |h.free|
    ensures Valid(Unlink(h, i).heap)
  {
    UnlinkLinked(h, i);
    UnlinkLayout(h, i);
    UnlinkMarks(h, i);
    UnlinkCoalesced(h, i);
    UnlinkAscending(h, i);
  }

  lemma UnlinkAscending(h: Heap, i: nat)
    requires Linked(h) && Ascending(h.free) && i + 1 < |h.free|
    ensures Ascending(Unlink(h, i).heap.free)
  {
    var r := Unlink(h, i).heap.free;
    var f := h.free;
    forall a, b | 0 <= a < b < |r|
      ensures r[a] < r[b]
    {
      var a' := if a < i + 1 then a else a + 1;
      var b' := if b < i + 1 then b else b + 1;
      assert r[a] == f[a'] && r[b] == f[b'];
    }
  }

  lemma UnlinkLinked(h: Heap, i: nat)
    requires Linked(h) && Ascending(h.free) && i + 1 < |h.free|
    ensures Linked(Unlink(h, i).heap)
  {
    var r := Unlink(h, i).heap;
    var f := h.free;
    forall k | 0 <= k < |r.free|
      ensures r.free[k] != NULL && r.free[k] in r.mem
    {
      if k < i + 1 { assert r.free[k] == f[k]; } else { assert r.free[k] == f[k + 1]; }
    }
    forall a, b | 0 <= a && b == a + 1 && b < |r.free|
      ensures r.mem[r.free[a]].next == r.free[b]
    {
      if a < i {
        assert f[a] < f[i] && f[a] != f[i + 1];
        assert r.free[a] == f[a] && r.free[b] == f[a + 1];
      } else if a == i {
        LinkedNext(h, i + 1);
        assert r.free[b] == f[i + 2];
      } else {
        assert f[a + 1] > f[i + 1] > f[i];
        assert r.free[a] == f[a + 1] && r.free[b] == f[a + 2];
      }
    }
    var n := |r.free|;
    if n > 0 {
      if i + 1 == |f| - 1 {
        LinkedNext(h, i + 1);
        assert r.free[n - 1] == f[i];
      } else {
        assert r.free[n - 1] == f[|f| - 1];
        assert f[|f| - 1] > f[i + 1] > f[i];
      }
    }
  }

  /** Unlinking changes flags and links only: every block keeps its place and size. */
  lemma UnlinkExtents(h: Heap, i: nat)
    requires Linked(h) && i + 1 < |h.free|
    ensures SameExtents(Unlink(h, i).heap.mem, h.mem)
  {
  }

  lemma UnlinkLayout(h: Heap, i: nat)
    requires Linked(h) && Disjoint(h.mem) && Bounded(h) && Aligned(h) && i + 1 < |h.free|
    ensures var r := Unlink(h, i).heap;
            Disjoint(r.mem) && Bounded(r) && Aligned(r)
  {
    UnlinkExtents(h, i);
    EndSameExtents(Unlink(h, i).heap.mem, h.mem);
  }

  lemma UnlinkMarks(h: Heap, i: nat)
    requires Linked(h) && Ascending(h.free) && SentinelOk(h) && FreeListExact(h) && Detached(h)
    requires i + 1 < |h.free|
    ensures var r := Unlink(h, i).heap;
            SentinelOk(r) && FreeListExact(r) && Detached(r)
  {
    var r := Unlink(h, i).heap;
    var f := h.free;
    assert r.free[0] == f[0];
    assert f[0] < f[i + 1];
    UnlinkExact(h, i);
  }

  /** The taken block is now allocated and off the list; every other block keeps its flag and its place. */
  lemma UnlinkExact(h: Heap, i: nat)
    requires Linked(h) && Ascending(h.free) && FreeListExact(h)
    requires i + 1 < |h.free|
    ensures FreeListExact(Unlink(h, i).heap)
  {
    var r := Unlink(h, i).heap;
    var f := h.free;
    forall a | a in r.mem
      ensures !r.mem[a].alloc <==> a in r.free
    {
      if a == f[i + 1] {
        UnlinkTakesOff(h, i);
      } else {
        assert r.mem[a].alloc == h.mem[a].alloc;
        UnlinkKeepsListed(h, i, a);
      }
    }
  }

  /** The taken block is on the list no more. */
  lemma UnlinkTakesOff(h: Heap, i: nat)
    requires Linked(h) && Ascending(h.free) && i + 1 < |h.free|
    ensures h.free[i + 1] !in Unlink(h, i).heap.free
  {
    var r := Unlink(h, i).heap;
    var f := h.free;
    forall k | 0 <= k < |r.free|
      ensures r.free[k] != f[i + 1]
    {
      if k < i + 1 { assert r.free[k] == f[k]; } else { assert r.free[k] == f[k + 1]; }
    }
  }

  /** Any other block is on the list after the unlink exactly when it was before. */
  lemma UnlinkKeepsListed(h: Heap, i: nat, a: Addr)
    requires Linked(h) && i + 1 < |h.free| && a != h.free[i + 1]
    ensures a in Unlink(h, i).heap.free <==> a in h.free
  {
    var r := Unlink(h, i).heap;
    var f := h.free;
    if a in f {
      var k :| 0 <= k < |f| && f[k] == a;
      if k < i + 1 { assert r.free[k] == a; } else { assert r.free[k - 1] == a; }
    }
    if a in r.free {
      var k :| 0 <= k < |r.free| && r.free[k] == a;
      if k < i + 1 { assert f[k] == a; } else { assert f[k + 1] == a; }
    }
  }

  lemma UnlinkCoalesced(h: Heap, i: nat)
    requires Linked(h) && Ascending(h.free) && Disjoint(h.mem) && Coalesced(h)
    requires i + 1 < |h.free|
    ensures Linked(Unlink(h, i).heap) && Coalesced(Unlink(h, i).heap)
  {
    var r := Unlink(h, i).heap;
    var f := h.free;
    UnlinkLinked(h, i);
    UnlinkExtents(h, i);
    EndSameExtents(r.mem, h.mem);
    forall a, b | 1 <= a && b == a + 1 && b < |r.free|
      ensures End(r.mem, r.free[a]) < r.free[b]
    {
      if a < i {
        assert r.free[a] == f[a] && r.free[b] == f[a + 1];
      } else if a == i {
        assert r.free[a] == f[i] && r.free[b] == f[i + 2];
        SkipGap(h, i);
      } else {
        assert r.free[a] == f[a + 1] && r.free[b] == f[a + 2];
      }
    }
  }

  /** A free block ends strictly before the list node two places after it. */
  lemma SkipGap(h: Heap, i: nat)
    requires Ascending(h.free) && Disjoint(h.mem)
    requires i + 2 < |h.free| && h.free[i] in h.mem && h.free[i + 1] in h.mem
    ensures End(h.mem, h.free[i]) < h.free[i + 2]
  {
    var f := h.free;
    assert f[i] < f[i + 1] < f[i + 2];
    assert End(h.mem, f[i]) <= f[i + 1];
  }

  /** The situation in which umalloc calls split: a free block after the sentinel, larger than a header plus the request. */
  ghost predicate SplitCase(h: Heap, j: int, asize: nat)
  {
    && 1 <= j < |h.free|
    && h.free[j] in h.mem
    && asize % ALIGNMENT == 0
    && h.mem[h.free[j]].size > H + asize
  }

  /** In that situation split carves a new block strictly inside the old one. */
  lemma SplitCarves(h: Heap, j: int, asize: nat)
    requires SplitCase(h, j, asize)
    ensures var b := h.free[j];
            var c := Split(h, b, asize);
            && c.block != b
            && b < c.block < End(h.mem, b)
            && c.heap.mem[b] == Header(h.mem[b].size - asize - H, false, h.mem[b].next)
  {
    AlignFixed(asize);
  }

  /** The split path keeps every invariant. */
  lemma SplitValid(h: Heap, j: int, asize: nat)
    requires Valid(h) && SplitCase(h, j, asize)
    ensures Valid(Split(h, h.free[j], asize).heap)
  {
    SplitCarves(h, j, asize);
    SplitLayout(h, j, asize);
    SplitLists(h, j, asize);
  }

  lemma SplitLayout(h: Heap, j: int, asize: nat)
    requires Linked(h) && Disjoint(h.mem) && Bounded(h) && Aligned(h) && SplitCase(h, j, asize)
    ensures var r := Split(h, h.free[j], asize).heap;
            Disjoint(r.mem) && Bounded(r) && Aligned(r)
  {
    SplitDisjoint(h, j, asize);
    SplitBounded(h, j, asize);
    SplitAligned(h, j, asize);
  }

  /** The two pieces of a split end where the old block ended, so they stay below the heap end. */
  lemma SplitBounded(h: Heap, j: int, asize: nat)
    requires Linked(h) && Bounded(h) && SplitCase(h, j, asize)
    ensures Bounded(Split(h, h.free[j], asize).heap)
  {
    var b := h.free[j];
    SplitCarves(h, j, asize);
    var c := Split(h, b, asize);
    var r := c.heap;
    forall a | a in r.mem
      ensures End(r.mem, a) <= r.brk
    {
      if a != b && a != c.block {
        assert r.mem[a] == h.mem[a];
      }
    }
  }

  /** The remainder and the carved block start and end on 16-byte boundaries. */
  lemma SplitAligned(h: Heap, j: int, asize: nat)
    requires Linked(h) && Aligned(h) && SplitCase(h, j, asize)
    ensures Aligned(Split(h, h.free[j], asize).heap)
  {
    var b := h.free[j];
    SplitCarves(h, j, asize);
    var c := Split(h, b, asize);
    var r := c.heap;
    var rest := h.mem[b].size - asize - H;
    AlignedArith(h.mem[b].size, asize + H);
    AlignedArith(b + H, rest);
    forall a | a in r.mem
      ensures a % ALIGNMENT == 0 && r.mem[a].size % ALIGNMENT == 0
    {
      if a != b && a != c.block {
        assert r.mem[a] == h.mem[a];
      }
    }
  }

  lemma SplitDisjoint(h: Heap, j: int, asize: nat)
    requires Linked(h) && Disjoint(h.mem) && SplitCase(h, j, asize)
    ensures Disjoint(Split(h, h.free[j], asize).heap.mem)
  {
    var b := h.free[j];
    SplitCarves(h, j, asize);
    SplitFresh(h, j, asize);
    var c := Split(h, b, asize);
    var r := c.heap;
    var nb := c.block;
    forall a, x | a in r.mem && x in r.mem && a < x
      ensures End(r.mem, a) <= x
    {
      if a == nb {
        assert x in h.mem && x > b;
        assert End(h.mem, b) <= x;
      } else if a == b {
        if x != nb {
          assert End(h.mem, b) <= x;
        }
      } else if x == nb {
        assert a in h.mem && a < b;
        assert End(h.mem, a) <= b;
      } else {
        assert End(r.mem, a) == End(h.mem, a);
      }
    }
  }

  lemma SplitLists(h: Heap, j: int, asize: nat)
    requires Valid(h) && SplitCase(h, j, asize)
    ensures var r := Split(h, h.free[j], asize).heap;
            && Linked(r) && SentinelOk(r) && Ascending(r.free)
            && FreeListExact(r) && Detached(r) && Coalesced(r)
  {
    SplitLinked(h, j, asize);
    SplitMarks(h, j, asize);
    SplitCoalesced(h, j, asize);
  }

  /** The block split places is not an existing header (it lies inside a free block). */
  lemma SplitFresh(h: Heap, j: int, asize: nat)
    requires Linked(h) && Disjoint(h.mem) && SplitCase(h, j, asize)
    ensures Split(h, h.free[j], asize).block !in h.mem
  {
    SplitCarves(h, j, asize);
  }

  lemma SplitLinked(h: Heap, j: int, asize: nat)
    requires Linked(h) && Disjoint(h.mem) && SplitCase(h, j, asize)
    ensures Linked(Split(h, h.free[j], asize).heap)
  {
    var b := h.free[j];
    SplitCarves(h, j, asize);
    SplitFresh(h, j, asize);
    SplitLinks(h, j, asize, Split(h, b, asize));
  }

  /** Split leaves every list node's link as it was: the carved block is on no list. */
  lemma SplitLinks(h: Heap, j: int, asize: nat, c: Carve)
    requires Linked(h) && SplitCase(h, j, asize) && c == Split(h, h.free[j], asize)
    requires c.block != h.free[j] && c.block !in h.mem
    requires c.heap.mem[h.free[j]].next == h.mem[h.free[j]].next
    ensures forall k :: 0 <= k < |h.free| ==> h.free[k] in c.heap.mem && c.heap.mem[h.free[k]].next == h.mem[h.free[k]].next
  {
    forall k | 0 <= k < |h.free|
      ensures h.free[k] in c.heap.mem && c.heap.mem[h.free[k]].next == h.mem[h.free[k]].next
    {
      assert h.free[k] != c.block;
    }
  }

  lemma SplitMarks(h: Heap, j: int, asize: nat)
    requires Linked(h) && Disjoint(h.mem) && SentinelOk(h) && Ascending(h.free)
    requires FreeListExact(h) && Detached(h) && SplitCase(h, j, asize)
    ensures var r := Split(h, h.free[j], asize).heap;
            SentinelOk(r) && FreeListExact(r) && Detached(r) && Ascending(r.free)
  {
    var b := h.free[j];
    SplitCarves(h, j, asize);
    SplitFresh(h, j, asize);
    var c := Split(h, b, asize);
    assert h.free[0] < b;
    assert c.block !in h.free;
  }

  lemma SplitCoalesced(h: Heap, j: int, asize: nat)
    requires Linked(h) && Disjoint(h.mem) && Ascending(h.free) && Coalesced(h) && SplitCase(h, j, asize)
    ensures Linked(Split(h, h.free[j], asize).heap) && Coalesced(Split(h, h.free[j], asize).heap)
  {
    var b := h.free[j];
    SplitCarves(h, j, asize);
    SplitFresh(h, j, asize);
    SplitLinked(h, j, asize);
    var c := Split(h, b, asize);
    var r := c.heap;
    var f := h.free;
    forall x, y | 1 <= x && y == x + 1 && y < |f|
      ensures End(r.mem, f[x]) < f[y]
    {
      if f[x] == b {
        assert End(h.mem, b) <= f[y];
      } else {
        assert f[x] != c.block;
        assert End(r.mem, f[x]) == End(h.mem, f[x]);
      }
    }
  }

  /** umalloc keeps every invariant, on each of its three paths. */
  lemma UMallocValid(h: Heap, size: nat)
    requires Valid(h)
    ensures Valid(UMalloc(h, size).heap)
  {
    UMallocPlaces(h, size);
    PlaceValid(h, Align(size));
  }

  /** Each of umalloc's three paths keeps every invariant. */
  lemma PlaceValid(h: Heap, asize: nat)
    requires Valid(h) && asize % ALIGNMENT == 0
    ensures Valid(Place(h, asize).heap)
  {
    var i := FindFit(h, H + asize, 0);
    LinkedNext(h, i);
    if i + 1 == |h.free| {
      PlaceExtendValid(h, asize, i);
    } else if h.mem[h.free[i + 1]].size > H + asize {
      PlaceSplitValid(h, asize, i);
    } else {
      PlaceUnlinkValid(h, asize, i);
    }
  }

  /** The extend path keeps every invariant. */
  lemma PlaceExtendValid(h: Heap, asize: nat, i: nat)
    requires Valid(h) && asize % ALIGNMENT == 0
    requires i == FindFit(h, H + asize, 0) && i + 1 == |h.free|
    ensures Valid(Place(h, asize).heap)
  {
    LinkedNext(h, i);
    assert Place(h, asize) == Extend(h, asize);
    ExtendValid(h, asize);
  }

  /** The split path keeps every invariant. */
  lemma PlaceSplitValid(h: Heap, asize: nat, i: nat)
    requires Valid(h) && asize % ALIGNMENT == 0
    requires i == FindFit(h, H + asize, 0) && i + 1 < |h.free|
    requires h.mem[h.free[i + 1]].size > H + asize
    ensures Valid(Place(h, asize).heap)
  {
    LinkedNext(h, i);
    assert SplitCase(h, i + 1, asize);
    assert Place(h, asize) == Split(h, h.free[i + 1], asize);
    SplitValid(h, i + 1, asize);
  }

  /** The unlink path keeps every invariant. */
  lemma PlaceUnlinkValid(h: Heap, asize: nat, i: nat)
    requires Valid(h) && asize % ALIGNMENT == 0
    requires i == FindFit(h, H + asize, 0) && i + 1 < |h.free|
    requires h.mem[h.free[i + 1]].size <= H + asize
    ensures Valid(Place(h, asize).heap)
  {
    LinkedNext(h, i);
    assert Place(h, asize) == Unlink(h, i);
    UnlinkValid(h, i);
  }

  /** extend hands out fresh bytes: the free bytes do not change. */
  lemma ExtendFreeBytes(h: Heap, size: nat, x: int)
    requires Linked(h) && Bounded(h)
    ensures FreeByte(Extend(h, size).heap, x) <==> FreeByte(h, x)
  {
    var r := Extend(h, size).heap;
    assert h.brk !in h.mem;
    if FreeByte(h, x) {
      var k :| 1 <= k < |h.free| && InBlock(h.mem, h.free[k], x);
      assert InBlock(r.mem, r.free[k], x);
    }
    if FreeByte(r, x) {
      var k :| 1 <= k < |r.free| && InBlock(r.mem, r.free[k], x);
      assert InBlock(h.mem, h.free[k], x);
    }
  }

  /** split takes exactly the carved block's bytes out of the free bytes. */
  lemma SplitFreeBytes(h: Heap, j: int, asize: nat, x: int)
    requires Linked(h) && Disjoint(h.mem) && SplitCase(h, j, asize)
    ensures var c := Split(h, h.free[j], asize);
            FreeByte(c.heap, x) <==> FreeByte(h, x) && !InBlock(c.heap.mem, c.block, x)
  {
    SplitKeepsFree(h, j, asize, x);
    SplitFreeBefore(h, j, asize, x);
  }

  /** A free byte outside the carved block stays free. */
  lemma SplitKeepsFree(h: Heap, j: int, asize: nat, x: int)
    requires Linked(h) && Disjoint(h.mem) && SplitCase(h, j, asize)
    ensures var c := Split(h, h.free[j], asize);
            FreeByte(h, x) && !InBlock(c.heap.mem, c.block, x) ==> FreeByte(c.heap, x)
  {
    var b := h.free[j];
    SplitCarves(h, j, asize);
    SplitFresh(h, j, asize);
    var c := Split(h, b, asize);
    var r := c.heap;
    if FreeByte(h, x) && !InBlock(r.mem, c.block, x) {
      var k :| 1 <= k < |h.free| && InBlock(h.mem, h.free[k], x);
      if h.free[k] == b {
        assert InBlock(r.mem, b, x);
      } else {
        assert InBlock(r.mem, h.free[k], x);
      }
    }
  }

  /** A byte free after the split was free before, outside the carved block. */
  lemma SplitFreeBefore(h: Heap, j: int, asize: nat, x: int)
    requires Linked(h) && Disjoint(h.mem) && SplitCase(h, j, asize)
    ensures var c := Split(h, h.free[j], asize);
            FreeByte(c.heap, x) ==> FreeByte(h, x) && !InBlock(c.heap.mem, c.block, x)
  {
    var b := h.free[j];
    SplitCarves(h, j, asize);
    SplitFresh(h, j, asize);
    var c := Split(h, b, asize);
    var r := c.heap;
    if FreeByte(r, x) {
      var k :| 1 <= k < |r.free| && InBlock(r.mem, r.free[k], x);
      assert h.free[k] != c.block;
      assert InBlock(h.mem, h.free[k], x);
    }
  }

  /** The unlink path takes exactly the unlinked block's bytes out of the free bytes. */
  lemma UnlinkFreeBytes(h: Heap, i: nat, x: int)
    requires Linked(h) && Ascending(h.free) && Disjoint(h.mem) && i + 1 < |h.free|
    ensures var c := Unlink(h, i);
            FreeByte(c.heap, x) <==> FreeByte(h, x) && !InBlock(c.heap.mem, c.block, x)
  {
    UnlinkKeepsFree(h, i, x);
    UnlinkFreeBefore(h, i, x);
  }

  /** A free byte outside the unlinked block stays free. */
  lemma UnlinkKeepsFree(h: Heap, i: nat, x: int)
    requires Linked(h) && i + 1 < |h.free|
    ensures var c := Unlink(h, i);
            FreeByte(h, x) && !InBlock(c.heap.mem, c.block, x) ==> FreeByte(c.heap, x)
  {
    var c := Unlink(h, i);
    var r := c.heap;
    var f := h.free;
    UnlinkExtents(h, i);
    if FreeByte(h, x) && !InBlock(r.mem, c.block, x) {
      var k :| 1 <= k < |f| && InBlock(h.mem, f[k], x);
      InBlockSameExtents(r.mem, h.mem, f[k], x);
      if k < i + 1 {
        assert r.free[k] == f[k];
      } else {
        assert r.free[k - 1] == f[k];
      }
    }
  }

  /** A byte free after the unlink was free before, outside the unlinked block. */
  lemma UnlinkFreeBefore(h: Heap, i: nat, x: int)
    requires Linked(h) && Ascending(h.free) && Disjoint(h.mem) && i + 1 < |h.free|
    ensures var c := Unlink(h, i);
            FreeByte(c.heap, x) ==> FreeByte(h, x) && !InBlock(c.heap.mem, c.block, x)
  {
    var c := Unlink(h, i);
    var r := c.heap;
    var f := h.free;
    UnlinkExtents(h, i);
    if FreeByte(r, x) {
      var k :| 1 <= k < |r.free| && InBlock(r.mem, r.free[k], x);
      var k' := if k < i + 1 then k else k + 1;
      assert r.free[k] == f[k'] && k' != i + 1;
      InBlockSameExtents(r.mem, h.mem, f[k'], x);
      AscendingIndex(f, k', i + 1);
      OneBlockPerByte(h.mem, f[k'], f[i + 1], x);
      InBlockSameExtents(r.mem, h.mem, f[i + 1], x);
    }
  }

  /** Free-list position `k` (after the sentinel) holds a block of at least `need` bytes. */
  ghost predicate Fits(h: Heap, need: nat, k: int)
    requires Linked(h)
  {
    1 <= k < |h.free| && h.mem[h.free[k]].size >= need
  }

  /** Position `k` is the first one in list order that fits. */
  ghost predicate FirstFit(h: Heap, need: nat, k: int)
    requires Linked(h)
  {
    Fits(h, need, k) && forall m :: 1 <= m < k ==> !Fits(h, need, m)
  }

  /** No free-list block (after the sentinel) fits. */
  ghost predicate NoFit(h: Heap, need: nat)
    requires Linked(h)
  {
    forall k :: !Fits(h, need, k)
  }

  /** The walk from the sentinel stops just before the first fitting block, or at the end of the list when none fits. */
  lemma FindFitFirst(h: Heap, need: nat)
    requires Linked(h) && |h.free| > 0
    ensures var i := FindFit(h, need, 0);
            && (i + 1 < |h.free| ==> FirstFit(h, need, i + 1))
            && (i + 1 == |h.free| ==> NoFit(h, need))
  {
  }

  /** The walk from the sentinel stops right before the first fitting block. */
  lemma FindFitStopsBefore(h: Heap, need: nat, j: int)
    requires Linked(h) && FirstFit(h, need, j)
    ensures FindFit(h, need, 0) + 1 == j
  {
    FindFitFirst(h, need);
  }

  /** When no free block fits, umalloc extends: a fresh allocated block of exactly ALIGN(size) at the old heap end, free list untouched. */
  lemma UMallocExtendPath(h: Heap, size: nat)
    requires Linked(h) && |h.free| > 0
    requires NoFit(h, H + Align(size))
    ensures var r := UMalloc(h, size);
            && r.payload == h.brk + H
            && r.heap.free == h.free
            && r.heap.brk == h.brk + H + Align(size)
            && r.heap.mem == h.mem[h.brk := Header(Align(size), true, NULL)]
  {
    var asize := Align(size);
    FindFitFirst(h, H + asize);
    var i := FindFit(h, H + asize, 0);
    LinkedNext(h, i);
    assert Place(h, asize) == Extend(h, asize);
  }

  /**
    When the first fitting block is exactly a header plus the request, umalloc
    unlinks it, marks it allocated and hands it out whole; its predecessor now
    links past it and no other header changes.
   */
  lemma UMallocUnlinkPath(h: Heap, size: nat, j: int)
    requires Linked(h) && Ascending(h.free)
    requires FirstFit(h, H + Align(size), j)
    requires h.mem[h.free[j]].size == H + Align(size)
    ensures var r := UMalloc(h, size);
            && r.payload == h.free[j] + H
            && r.heap.free == RemoveAt(h.free, j)
            && r.heap.mem[h.free[j]] == h.mem[h.free[j]].(alloc := true, next := NULL)
            && r.heap.mem[h.free[j - 1]] == h.mem[h.free[j - 1]].(next := Succ(h.free, j))
            && (forall a :: a in h.mem && a != h.free[j - 1] && a != h.free[j] ==> r.heap.mem[a] == h.mem[a])
            && r.heap.mem.Keys == h.mem.Keys
  {
    var asize := Align(size);
    FindFitStopsBefore(h, H + asize, j);
    var i := j - 1;
    LinkedNext(h, i);
    assert h.free[i] < h.free[j];
    assert Place(h, asize) == Unlink(h, i);
  }

  /**
    When the first fitting block is larger than a header plus the request,
    umalloc carves the request from its high end: the returned block ends
    where the free block ended, the remainder keeps its address, its list
    position and its link, and the free list is unchanged.
   */
  lemma UMallocSplitPath(h: Heap, size: nat, j: int)
    requires Linked(h)
    requires FirstFit(h, H + Align(size), j)
    requires h.mem[h.free[j]].size > H + Align(size)
    ensures var r := UMalloc(h, size);
            var b := h.free[j];
            && r.payload - H == b + h.mem[b].size - Align(size)
            && r.heap.free == h.free
            && r.heap.mem[b] == Header(h.mem[b].size - Align(size) - H, false, h.mem[b].next)
            && r.heap.mem[r.payload - H] == Header(Align(size), true, NULL)
            && End(r.heap.mem, r.payload - H) == End(h.mem, b)
  {
    var asize := Align(size);
    FindFitStopsBefore(h, H + asize, j);
    var i := j - 1;
    LinkedNext(h, i);
    AlignFixed(asize);
    SplitCarves(h, j, asize);
    assert Place(h, asize) == Split(h, h.free[j], asize);
  }

  /** Free bytes lie below the heap end. */
  lemma FreeByteBelowBrk(h: Heap, x: int)
    requires Linked(h) && Bounded(h) && FreeByte(h, x)
    ensures x < h.brk
  {
    var k :| 1 <= k < |h.free| && InBlock(h.mem, h.free[k], x);
  }

  /** The free bytes after placing a request: the old ones minus the placed block. */
  lemma PlaceFreeBytes(h: Heap, asize: nat, x: int)
    requires Linked(h) && Ascending(h.free) && Disjoint(h.mem) && Bounded(h)
    requires asize % ALIGNMENT == 0
    ensures var c := Place(h, asize);
            FreeByte(c.heap, x) <==> FreeByte(h, x) && !InBlock(c.heap.mem, c.block, x)
  {
    if |h.free| == 0 {
      ExtendFreeBytes(h, asize, x);
      return;
    }
    var i := FindFit(h, H + asize, 0);
    var succ := h.mem[h.free[i]].next;
    LinkedNext(h, i);
    if succ == NULL {
      assert Place(h, asize) == Extend(h, asize);
      ExtendFreeBytes(h, asize, x);
      if FreeByte(h, x) { FreeByteBelowBrk(h, x); }
    } else if h.mem[succ].size > H + asize {
      assert succ == h.free[i + 1];
      assert SplitCase(h, i + 1, asize);
      assert Place(h, asize) == Split(h, succ, asize);
      SplitFreeBytes(h, i + 1, asize, x);
    } else {
      assert Place(h, asize) == Unlink(h, i);
      UnlinkFreeBytes(h, i, x);
    }
  }

  /**
    umalloc hands out bytes that were free or fresh: afterwards the free bytes
    are exactly the old free bytes minus the returned block.
   */
  lemma UMallocFreeBytes(h: Heap, size: nat, x: int)
    requires Linked(h) && Ascending(h.free) && Disjoint(h.mem) && Bounded(h)
    ensures var r := UMalloc(h, size);
            FreeByte(r.heap, x) <==> FreeByte(h, x) && !InBlock(r.heap.mem, GetBlock(r.payload), x)
  {
    var c := Place(h, Align(size));
    assert UMalloc(h, size) == Grant(c.heap, GetPayload(c.block));
    PlaceFreeBytes(h, Align(size), x);
  }

  /** Address `b` holds no allocated block of `h`: it is fresh or free. */
  ghost predicate Unallocated(h: Heap, b: Addr)
  {
    b !in h.mem || !h.mem[b].alloc
  }

  /** Placing a request takes a block that was free or fresh and leaves every allocated block alone. */
  lemma PlaceKeepsAllocated(h: Heap, asize: nat)
    requires Linked(h) && Disjoint(h.mem) && Bounded(h) && FreeListExact(h)
    requires asize % ALIGNMENT == 0
    ensures var c := Place(h, asize);
            && Unallocated(h, c.block)
            && KeepsAllocated(h, c.heap, {})
  {
    if |h.free| == 0 {
      assert h.brk !in h.mem;
      return;
    }
    var i := FindFit(h, H + asize, 0);
    var succ := h.mem[h.free[i]].next;
    LinkedNext(h, i);
    if succ == NULL {
      assert Place(h, asize) == Extend(h, asize);
      ExtendKeepsAllocated(h, asize);
    } else if h.mem[succ].size > H + asize {
      assert succ == h.free[i + 1];
      assert SplitCase(h, i + 1, asize);
      assert Place(h, asize) == Split(h, succ, asize);
      SplitKeepsAllocated(h, i + 1, asize);
    } else {
      assert Place(h, asize) == Unlink(h, i);
      UnlinkKeepsAllocated(h, i);
    }
  }

  /** Extending takes the fresh block at the old heap end and keeps every other block. */
  lemma ExtendKeepsAllocated(h: Heap, asize: nat)
    requires Bounded(h)
    ensures var c := Extend(h, asize);
            Unallocated(h, c.block) && KeepsAllocated(h, c.heap, {})
  {
    assert h.brk !in h.mem;
  }

  /** Splitting takes a fresh block inside a free one and keeps every allocated block. */
  lemma SplitKeepsAllocated(h: Heap, j: int, asize: nat)
    requires Linked(h) && Disjoint(h.mem) && FreeListExact(h) && SplitCase(h, j, asize)
    ensures var c := Split(h, h.free[j], asize);
            Unallocated(h, c.block) && KeepsAllocated(h, c.heap, {})
  {
    SplitFresh(h, j, asize);
  }

  /** Unlinking takes a free block off the list and keeps every allocated block. */
  lemma UnlinkKeepsAllocated(h: Heap, i: nat)
    requires Linked(h) && FreeListExact(h) && i + 1 < |h.free|
    ensures var c := Unlink(h, i);
            Unallocated(h, c.block) && KeepsAllocated(h, c.heap, {})
  {
  }

  /** umalloc returns the payload of the block its placement step chose. */
  lemma UMallocPlaces(h: Heap, size: nat)
    requires Linked(h)
    ensures GetBlock(UMalloc(h, size).payload) == Place(h, Align(size)).block
    ensures UMalloc(h, size).heap == Place(h, Align(size)).heap
  {
  }

  /** umalloc leaves every allocated block as it was: the client's blocks are untouched. */
  lemma UMallocKeepsAllocated(h: Heap, size: nat)
    requires Linked(h) && Disjoint(h.mem) && Bounded(h) && FreeListExact(h)
    ensures KeepsAllocated(h, UMalloc(h, size).heap, {})
  {
    PlaceKeepsAllocated(h, Align(size));
  }

  /** The block umalloc returns was not allocated before the call: it was free or fresh. */
  lemma UMallocTakesUnallocated(h: Heap, size: nat)
    requires Linked(h) && Disjoint(h.mem) && Bounded(h) && FreeListExact(h)
    ensures Unallocated(h, GetBlock(UMalloc(h, size).payload))
  {
    UMallocPlaces(h, size);
    PlaceKeepsAllocated(h, Align(size));
  }

  /** The payload umalloc returns from a valid heap is 16-byte aligned. */
  lemma UMallocPayloadAligned(h: Heap, size: nat)
    requires Valid(h)
    ensures UMalloc(h, size).payload % ALIGNMENT == 0
  {
    UMallocValid(h, size);
    var c := Place(h, Align(size));
    assert UMalloc(h, size) == Grant(c.heap, GetPayload(c.block));
    assert Aligned(c.heap);
  }

  /** Placing a request takes bytes that were free, or fresh bytes at or above the old heap end. */
  lemma PlaceTakesFreeBytes(h: Heap, asize: nat, x: int)
    requires Linked(h) && asize % ALIGNMENT == 0
    ensures var c := Place(h, asize);
            InBlock(c.heap.mem, c.block, x) ==> FreeByte(h, x) || x >= h.brk
  {
    if |h.free| == 0 {
      return;
    }
    var i := FindFit(h, H + asize, 0);
    var succ := h.mem[h.free[i]].next;
    LinkedNext(h, i);
    if succ == NULL {
      assert Place(h, asize) == Extend(h, asize);
    } else if h.mem[succ].size > H + asize {
      assert succ == h.free[i + 1];
      assert SplitCase(h, i + 1, asize);
      assert Place(h, asize) == Split(h, succ, asize);
      SplitCarves(h, i + 1, asize);
      var c := Split(h, succ, asize);
      if InBlock(c.heap.mem, c.block, x) {
        assert InBlock(h.mem, h.free[i + 1], x);
      }
    } else {
      assert Place(h, asize) == Unlink(h, i);
      var c := Unlink(h, i);
      if InBlock(c.heap.mem, c.block, x) {
        assert InBlock(h.mem, h.free[i + 1], x);
      }
    }
  }

  /** umalloc hands out bytes that were free, or fresh bytes at or above the old heap end. */
  lemma UMallocTakesFreeBytes(h: Heap, size: nat, x: int)
    requires Linked(h)
    ensures var r := UMalloc(h, size);
            InBlock(r.heap.mem, GetBlock(r.payload), x) ==> FreeByte(h, x) || x >= h.brk
  {
    UMallocPlaces(h, size);
    PlaceTakesFreeBytes(h, Align(size), x);
  }
}
