/**
  The release side of umalloc.c: ufree, as a pure transformer of the heap
  state. It clears the block's flag, walks the address-ordered free list to
  the block's predecessor, and then either grows the predecessor over the
  block (backward coalescing) or splices the block in after it, and finally
  lets the resulting free block swallow its list successor when the two touch
  (forward coalescing).
 */
module Release {
  import opened Memory
  import opened Blocks
  import opened Heaps

  /**
    The walk of ufree from list position `i`: advance while the successor
    exists and lies below `b`. It stops at the last node below `b` (or the
    sentinel), whose successor is NULL or at or above `b`.
   */
  function FindPred(h: Heap, b: Addr, i: nat): (j: nat)
    requires Linked(h) && i < |h.free|
    ensures i <= j < |h.free|
    ensures forall k :: i < k <= j ==> h.free[k] < b
    ensures j + 1 < |h.free| ==> h.free[j + 1] >= b
    decreases |h.free| - i
  {
    var next := h.mem[h.free[i]].next;
    LinkedNext(h, i);
    if next != NULL && next < b then FindPred(h, b, i + 1) else i
  }

  /** deallocate on the decoded heap: the block's flag is cleared and nothing else changes. */
  function MarkFree(h: Heap, b: Addr): (r: Heap)
    requires b in h.mem
    ensures r.free == h.free && r.brk == h.brk && r.mem.Keys == h.mem.Keys
    ensures r.mem[b] == h.mem[b].(alloc := false)
    ensures forall a :: a in h.mem && a != b ==> r.mem[a] == h.mem[a]
  {
    h.(mem := h.mem[b := h.mem[b].(alloc := false)])
  }

  /** Clearing a flag keeps the list links. */
  lemma MarkFreeLinked(h: Heap, b: Addr)
    requires Linked(h) && b in h.mem
    ensures Linked(MarkFree(h, b))
  {
    var r := MarkFree(h, b);
    forall i, j | 0 <= i && j == i + 1 && j < |r.free|
      ensures r.mem[r.free[i]].next == r.free[j]
    {
      assert h.mem[h.free[i]].next == h.free[j];
    }
  }

  /**
    Backward coalescing: `pred` grows by `b`'s header and payload, and `b`'s
    header, now inside `pred`'s payload, is no longer a block. The size word
    is rewritten, so its flag is clear.
   */
  function MergeBack(h: Heap, pred: Addr, b: Addr): (r: Heap)
    requires pred in h.mem && b in h.mem && pred != b
    ensures r.free == h.free && r.brk == h.brk
    ensures r.mem.Keys == h.mem.Keys - {b}
    ensures r.mem[pred] == Header(h.mem[pred].size + H + h.mem[b].size, false, h.mem[pred].next)
    ensures forall a :: a in r.mem && a != pred ==> r.mem[a] == h.mem[a]
  {
    h.(mem := (h.mem - {b})[pred := Header(h.mem[pred].size + H + h.mem[b].size, false, h.mem[pred].next)])
  }

  /** Dropping a header that is on no list keeps the list links. */
  lemma MergeBackLinked(h: Heap, pred: Addr, b: Addr)
    requires Linked(h) && pred in h.mem && b in h.mem && pred != b && b !in h.free
    ensures Linked(MergeBack(h, pred, b))
  {
    var r := MergeBack(h, pred, b);
    forall k | 0 <= k < |r.free|
      ensures r.free[k] != NULL && r.free[k] in r.mem
    {
      assert r.free[k] != b;
    }
    forall i, j | 0 <= i && j == i + 1 && j < |r.free|
      ensures r.mem[r.free[i]].next == r.free[j]
    {
      assert h.mem[h.free[i]].next == h.free[j];
      assert r.free[i] != b;
    }
  }

  /**
    Splicing `b` in after list position `i`: the predecessor links to `b`, and
    `b` links to the old successor when there is one (otherwise its link is
    left as it was).
   */
  function Splice(h: Heap, i: nat, b: Addr): (r: Heap)
    requires Linked(h) && i < |h.free| && b in h.mem && h.free[i] != b
    ensures r.free == InsertAt(h.free, i + 1, b)
    ensures r.brk == h.brk && r.mem.Keys == h.mem.Keys
    ensures r.mem[h.free[i]] == h.mem[h.free[i]].(next := b)
    ensures r.mem[b] == h.mem[b].(next := if i + 1 < |h.free| then h.free[i + 1] else h.mem[b].next)
    ensures forall a :: a in h.mem && a != h.free[i] && a != b ==> r.mem[a] == h.mem[a]
  {
    var pred := h.free[i];
    var temp := h.mem[pred].next;
    LinkedNext(h, i);
    var mem1 := h.mem[pred := h.mem[pred].(next := b)];
    var mem2 := if temp != NULL then mem1[b := mem1[b].(next := temp)] else mem1;
    h.(mem := mem2, free := InsertAt(h.free, i + 1, b))
  }

  /** Splicing a block that is on no list, and whose link is NULL when it goes last, keeps the links. */
  lemma SpliceLinked(h: Heap, i: nat, b: Addr)
    requires Linked(h) && Ascending(h.free) && i < |h.free| && b in h.mem && b != NULL && b !in h.free
    requires i + 1 == |h.free| ==> h.mem[b].next == NULL
    ensures Linked(Splice(h, i, b))
  {
    SpliceListed(h, i, b);
    SpliceLinks(h, i, b);
    var r := Splice(h, i, b);
    if i + 1 < |h.free| {
      assert r.free[|r.free| - 1] == h.free[|h.free| - 1];
    }
  }

  /** Every node of the spliced list is a block. */
  lemma SpliceListed(h: Heap, i: nat, b: Addr)
    requires Linked(h) && i < |h.free| && b in h.mem && b != NULL && b !in h.free
    ensures var r := Splice(h, i, b);
            forall k :: 0 <= k < |r.free| ==> r.free[k] != NULL && r.free[k] in r.mem
  {
    var r := Splice(h, i, b);
    var f := h.free;
    forall k | 0 <= k < |r.free|
      ensures r.free[k] != NULL && r.free[k] in r.mem
    {
      if k < i + 1 { assert r.free[k] == f[k]; }
      else if k > i + 1 { assert r.free[k] == f[k - 1]; }
    }
  }

  /** Every node of the spliced list links to its successor there. */
  lemma SpliceLinks(h: Heap, i: nat, b: Addr)
    requires Linked(h) && Ascending(h.free) && i < |h.free| && b in h.mem && b != NULL && b !in h.free
    ensures var r := Splice(h, i, b);
            forall x, y :: 0 <= x && y == x + 1 && y < |r.free| ==> r.mem[r.free[x]].next == r.free[y]
  {
    var r := Splice(h, i, b);
    var f := h.free;
    forall x, y | 0 <= x && y == x + 1 && y < |r.free|
      ensures r.mem[r.free[x]].next == r.free[y]
    {
      if x < i {
        assert r.free[x] == f[x] && r.free[y] == f[y];
        assert f[x] < f[i];
      } else if x > i + 1 {
        assert r.free[x] == f[x - 1] && r.free[y] == f[x];
        assert f[x - 1] > f[i];
      } else if x == i + 1 {
        assert r.free[y] == f[i + 1];
      }
    }
  }

  /**
    Forward coalescing at list position `k`: the block there grows by its
    successor's header and payload and takes over the successor's link; the
    successor leaves the list and is no longer a block.
   */
  function Absorb(h: Heap, k: nat): (r: Heap)
    requires Linked(h) && k + 1 < |h.free| && h.free[k] != h.free[k + 1]
    ensures r.free == RemoveAt(h.free, k + 1) && r.brk == h.brk
    ensures r.mem.Keys == h.mem.Keys - {h.free[k + 1]}
    ensures var c, n := h.free[k], h.free[k + 1];
            r.mem[c] == Header(h.mem[c].size + H + h.mem[n].size, false, h.mem[n].next)
    ensures forall a :: a in r.mem && a != h.free[k] ==> r.mem[a] == h.mem[a]
  {
    var c, n := h.free[k], h.free[k + 1];
    h.(mem := (h.mem - {n})[c := Header(h.mem[c].size + H + h.mem[n].size, false, h.mem[n].next)],
       free := RemoveAt(h.free, k + 1))
  }

  /** Absorbing a successor keeps the list links. */
  lemma AbsorbLinked(h: Heap, k: nat)
    requires Linked(h) && Ascending(h.free) && k + 1 < |h.free|
    ensures Linked(Absorb(h, k))
  {
    var r := Absorb(h, k);
    var f := h.free;
    forall m | 0 <= m < |r.free|
      ensures r.free[m] != NULL && r.free[m] in r.mem
    {
      if m <= k { assert r.free[m] == f[m] && f[m] < f[k + 1]; }
      else { assert r.free[m] == f[m + 1] && f[m + 1] > f[k + 1]; }
    }
    forall x, y | 0 <= x && y == x + 1 && y < |r.free|
      ensures r.mem[r.free[x]].next == r.free[y]
    {
      if x < k {
        assert r.free[x] == f[x] && r.free[y] == f[y] && f[x] < f[k];
      } else if x == k {
        LinkedNext(h, k + 1);
        assert r.free[y] == f[k + 2];
      } else {
        assert r.free[x] == f[x + 1] && r.free[y] == f[x + 2] && f[x + 1] > f[k];
      }
    }
    var last := |r.free| - 1;
    if k + 2 == |f| {
      LinkedNext(h, k + 1);
    } else {
      assert r.free[last] == f[|f| - 1] && f[|f| - 1] > f[k];
    }
  }

  /**
    The forward step of ufree on the block at list position `k`: when it ends
    exactly where its link points, it absorbs that successor.
   */
  function MergeForward(h: Heap, k: nat): (r: Heap)
    requires Linked(h) && k < |h.free|
    ensures r.brk == h.brk && r.mem.Keys <= h.mem.Keys
    ensures r.free == h.free || (k + 1 < |h.free| && r.free == RemoveAt(h.free, k + 1))
    ensures h.free[k] in r.mem && r.mem[h.free[k]].size >= h.mem[h.free[k]].size
    ensures forall a :: a in r.mem && a != h.free[k] ==> r.mem[a] == h.mem[a]
  {
    var c := h.free[k];
    LinkedNext(h, k);
    if End(h.mem, c) == h.mem[c].next then Absorb(h, k) else h
  }

  /**
    What ufree may rely on in a valid heap, for a block other than the
    sentinel that its walk did not find on the list: the block is allocated,
    unlisted and detached, and the walk stopped at the last list node below it.
   */
  lemma Unlisted(h: Heap, b: Addr)
    requires Valid(h) && b in h.mem && b != h.free[0]
    requires var i := FindPred(h, b, 0); h.mem[h.free[i]].next != b
    ensures var i := FindPred(h, b, 0);
            && b !in h.free
            && h.mem[b].alloc && h.mem[b].next == NULL
            && h.free[i] < b
            && (i + 1 < |h.free| ==> b < h.free[i + 1])
  {
    var i := FindPred(h, b, 0);
    LinkedNext(h, i);
    forall k | 0 <= k < |h.free|
      ensures h.free[k] != b
    {
      if k > i + 1 {
        assert h.free[i + 1] < h.free[k];
      }
    }
    assert h.free[0] < b;
  }

  /** The walk reads only links and addresses, which deallocate does not touch. */
  lemma FindPredMarkFree(h: Heap, b: Addr, i: nat)
    requires Linked(h) && b in h.mem && i < |h.free|
    ensures Linked(MarkFree(h, b))
    ensures FindPred(MarkFree(h, b), b, i) == FindPred(h, b, i)
    decreases |h.free| - i
  {
    MarkFreeLinked(h, b);
    LinkedNext(h, i);
    if h.mem[h.free[i]].next != NULL && h.mem[h.free[i]].next < b {
      FindPredMarkFree(h, b, i + 1);
    }
  }

  /**
    The part of ufree after the walk, for a freed block `b` that is on no list
    and whose walk stopped at list position `i`: merge it into the predecessor
    when the predecessor is a real free block (not the sentinel) that ends
    where `b` starts, or else splice it in after the predecessor; then merge
    the resulting block with its successor when the two touch.
   */
  function Coalesce(h: Heap, i: nat, b: Addr): (r: Heap)
    requires Linked(h) && Ascending(h.free) && i < |h.free|
    requires b in h.mem && b != NULL && b !in h.free
    requires i + 1 == |h.free| ==> h.mem[b].next == NULL
    ensures r.brk == h.brk && r.mem.Keys <= h.mem.Keys
    ensures b in r.mem ==> b in r.free
  {
    var pred := h.free[i];
    if i >= 1 && End(h.mem, pred) == b then
      MergeBackLinked(h, pred, b);
      MergeForward(MergeBack(h, pred, b), i)
    else
      SpliceLinked(h, i, b);
      MergeForward(Splice(h, i, b), i + 1)
  }

  /**
    ufree: deallocate the block and walk to its predecessor; when the block is
    already the predecessor's successor (it is on the list) nothing more
    happens, and otherwise the block is coalesced or spliced in.
   */
  function UFree(h: Heap, p: Addr): (r: Heap)
    requires Valid(h) && p >= H && GetBlock(p) in h.mem && GetBlock(p) != h.free[0]
    ensures r.brk == h.brk && r.mem.Keys <= h.mem.Keys
    ensures GetBlock(p) in r.mem ==> GetBlock(p) in r.free
  {
    var b := GetBlock(p);
    var h0 := MarkFree(h, b);
    FindPredMarkFree(h, b, 0);
    var i := FindPred(h, b, 0);
    LinkedNext(h, i);
    if h.mem[h.free[i]].next == b then h0
    else
      Unlisted(h, b);
      Coalesce(h0, i, b)
  }
}

module ReleaseProofs {
  import opened Memory
  import opened Blocks
  import opened Heaps
  import opened Release

  /** Consecutive free blocks after the sentinel do not touch, except possibly at list position `k`. */
  ghost predicate CoalescedBut(h: Heap, k: int)
    requires Linked(h)
  {
    forall i, j :: 1 <= i && i != k && j == i + 1 && j < |h.free| ==> End(h.mem, h.free[i]) < h.free[j]
  }

  /**
    Every invariant but one: the block at list position `k` may still touch
    its successor. This is the state ufree is in before its forward step.
   */
  ghost predicate ValidBut(h: Heap, k: int)
  {
    && Linked(h)
    && SentinelOk(h)
    && Ascending(h.free)
    && Disjoint(h.mem)
    && Bounded(h)
    && Aligned(h)
    && FreeListExact(h)
    && Detached(h)
    && 1 <= k < |h.free|
    && CoalescedBut(h, k)
  }

  /** The forward step restores the one missing invariant. */
  lemma MergeForwardValid(h: Heap, k: nat)
    requires ValidBut(h, k)
    ensures Valid(MergeForward(h, k))
  {
    var c := h.free[k];
    LinkedNext(h, k);
    if End(h.mem, c) == h.mem[c].next {
      AbsorbLinked(h, k);
      AbsorbLayout(h, k);
      AbsorbMarks(h, k);
      AbsorbCoalesced(h, k);
    } else {
      if k + 1 < |h.free| {
        assert End(h.mem, c) <= h.free[k + 1];
      }
    }
  }

  lemma AbsorbLayout(h: Heap, k: nat)
    requires Linked(h) && Ascending(h.free) && Disjoint(h.mem) && Bounded(h) && Aligned(h)
    requires k + 1 < |h.free| && End(h.mem, h.free[k]) == h.free[k + 1]
    ensures var r := Absorb(h, k);
            Disjoint(r.mem) && Bounded(r) && Aligned(r)
  {
    var c, n := h.free[k], h.free[k + 1];
    var r := Absorb(h, k);
    AbsorbDisjoint(h, k);
    AlignedArith(h.mem[c].size, H);
    AlignedArith(h.mem[c].size + H, h.mem[n].size);
    forall a | a in r.mem
      ensures a % ALIGNMENT == 0 && r.mem[a].size % ALIGNMENT == 0
      ensures End(r.mem, a) <= r.brk
    {
      if a == c {
        assert End(r.mem, c) == End(h.mem, n);
      } else {
        assert r.mem[a] == h.mem[a];
      }
    }
  }

  lemma AbsorbDisjoint(h: Heap, k: nat)
    requires Linked(h) && Ascending(h.free) && Disjoint(h.mem)
    requires k + 1 < |h.free| && End(h.mem, h.free[k]) == h.free[k + 1]
    ensures Disjoint(Absorb(h, k).mem)
  {
    var c, n := h.free[k], h.free[k + 1];
    var r := Absorb(h, k);
    assert End(r.mem, c) == End(h.mem, n);
    forall a, x | a in r.mem && x in r.mem && a < x
      ensures End(r.mem, a) <= x
    {
      if a == c {
        assert x > n;
        assert End(h.mem, n) <= x;
      } else if x == c {
        assert End(h.mem, a) <= c;
      } else {
        assert End(r.mem, a) == End(h.mem, a);
      }
    }
  }

  lemma AbsorbMarks(h: Heap, k: nat)
    requires Linked(h) && Ascending(h.free) && SentinelOk(h) && FreeListExact(h) && Detached(h)
    requires 1 <= k && k + 1 < |h.free|
    ensures var r := Absorb(h, k);
            SentinelOk(r) && FreeListExact(r) && Detached(r) && Ascending(r.free)
  {
    var r := Absorb(h, k);
    assert r.free[0] == h.free[0] && h.free[0] < h.free[k];
    AbsorbExact(h, k);
    AbsorbAscending(h, k);
  }

  lemma AbsorbExact(h: Heap, k: nat)
    requires Linked(h) && Ascending(h.free) && FreeListExact(h)
    requires k + 1 < |h.free|
    ensures FreeListExact(Absorb(h, k))
  {
    var r := Absorb(h, k);
    var f := h.free;
    forall a | a in r.mem
      ensures !r.mem[a].alloc <==> a in r.free
    {
      if a != f[k] {
        assert r.mem[a] == h.mem[a];
        assert a != f[k + 1];
        if a in f {
          var m :| 0 <= m < |f| && f[m] == a;
          if m < k + 1 { assert r.free[m] == a; } else { assert r.free[m - 1] == a; }
        }
        if a in r.free {
          var m :| 0 <= m < |r.free| && r.free[m] == a;
          if m < k + 1 { assert f[m] == a; } else { assert f[m + 1] == a; }
        }
      } else {
        assert r.free[k] == a;
      }
    }
  }

  lemma AbsorbAscending(h: Heap, k: nat)
    requires Linked(h) && Ascending(h.free) && k + 1 < |h.free|
    ensures Ascending(Absorb(h, k).free)
  {
    var r := Absorb(h, k);
    var f := h.free;
    forall x, y | 0 <= x < y < |r.free|
      ensures r.free[x] < r.free[y]
    {
      var x' := if x < k + 1 then x else x + 1;
      var y' := if y < k + 1 then y else y + 1;
      assert r.free[x] == f[x'] && r.free[y] == f[y'];
    }
  }

  lemma AbsorbCoalesced(h: Heap, k: nat)
    requires ValidBut(h, k) && k + 1 < |h.free| && End(h.mem, h.free[k]) == h.free[k + 1]
    ensures Linked(Absorb(h, k)) && Coalesced(Absorb(h, k))
  {
    var r := Absorb(h, k);
    var f := h.free;
    AbsorbLinked(h, k);
    forall x, y | 1 <= x && y == x + 1 && y < |r.free|
      ensures End(r.mem, r.free[x]) < r.free[y]
    {
      if x < k {
        assert r.free[x] == f[x] && r.free[y] == f[y] && f[x] < f[k];
        assert End(r.mem, f[x]) == End(h.mem, f[x]);
      } else if x == k {
        assert r.free[y] == f[k + 2];
        assert End(r.mem, f[k]) == End(h.mem, f[k + 1]);
        assert End(h.mem, f[k + 1]) < f[k + 2];
      } else {
        assert r.free[x] == f[x + 1] && r.free[y] == f[x + 2] && f[x + 1] > f[k];
        assert End(r.mem, f[x + 1]) == End(h.mem, f[x + 1]);
      }
    }
  }

  /**
    The situation ufree's coalescing step starts from: `b` is an allocated,
    detached block on no list, and list position `i` is the last node below it.
   */
  ghost predicate Releasing(h: Heap, b: Addr, i: int)
  {
    && Linked(h)
    && 0 <= i < |h.free|
    && b in h.mem && b != NULL && b !in h.free
    && h.mem[b].alloc && h.mem[b].next == NULL
    && h.free[i] < b
    && (i + 1 < |h.free| ==> b < h.free[i + 1])
  }

  /** In a valid heap, a block the walk does not find after its predecessor is in that situation. */
  lemma ReleasingHolds(h: Heap, b: Addr)
    requires Valid(h) && b in h.mem && b != h.free[0]
    requires h.mem[h.free[FindPred(h, b, 0)]].next != b
    ensures Releasing(h, b, FindPred(h, b, 0))
  {
    Unlisted(h, b);
  }

  /** Backward coalescing leaves only the merged block possibly touching its successor. */
  lemma MergeBackStep(h: Heap, b: Addr, i: nat)
    requires Valid(h) && Releasing(h, b, i)
    requires 1 <= i && End(h.mem, h.free[i]) == b
    ensures var h0 := MarkFree(h, b);
            && Linked(h0)
            && ValidBut(MergeBack(h0, h.free[i], b), i)
  {
    var h0 := MarkFree(h, b);
    MarkFreeLinked(h, b);
    MergeBackLinked(h0, h.free[i], b);
    MergeBackLayout(h, b, i);
    MergeBackMarks(h, b, i);
    MergeBackCoalesced(h, b, i);
  }

  lemma MergeBackLayout(h: Heap, b: Addr, i: nat)
    requires Disjoint(h.mem) && Bounded(h) && Aligned(h) && Releasing(h, b, i)
    requires End(h.mem, h.free[i]) == b
    ensures var r := MergeBack(MarkFree(h, b), h.free[i], b);
            Disjoint(r.mem) && Bounded(r) && Aligned(r)
  {
    MergeBackDisjoint(h, b, i);
    MergeBackBounded(h, b, i);
    MergeBackAligned(h, b, i);
  }

  /** The merged block ends where the freed block ended, so it stays below the heap end. */
  lemma MergeBackBounded(h: Heap, b: Addr, i: nat)
    requires Bounded(h) && Releasing(h, b, i)
    requires End(h.mem, h.free[i]) == b
    ensures Bounded(MergeBack(MarkFree(h, b), h.free[i], b))
  {
    var pred := h.free[i];
    var r := MergeBack(MarkFree(h, b), pred, b);
    forall a | a in r.mem
      ensures End(r.mem, a) <= r.brk
    {
      if a == pred {
        assert End(r.mem, pred) == End(h.mem, b);
      } else {
        assert r.mem[a] == h.mem[a];
      }
    }
  }

  /** The merged size is a sum of aligned sizes and the header size, so it stays aligned. */
  lemma MergeBackAligned(h: Heap, b: Addr, i: nat)
    requires Aligned(h) && Releasing(h, b, i)
    ensures Aligned(MergeBack(MarkFree(h, b), h.free[i], b))
  {
    var pred := h.free[i];
    var r := MergeBack(MarkFree(h, b), pred, b);
    AlignedArith(h.mem[pred].size, H);
    AlignedArith(h.mem[pred].size + H, h.mem[b].size);
    forall a | a in r.mem
      ensures a % ALIGNMENT == 0 && r.mem[a].size % ALIGNMENT == 0
    {
      if a != pred {
        assert r.mem[a] == h.mem[a];
      }
    }
  }

  lemma MergeBackDisjoint(h: Heap, b: Addr, i: nat)
    requires Disjoint(h.mem) && Releasing(h, b, i)
    requires End(h.mem, h.free[i]) == b
    ensures Disjoint(MergeBack(MarkFree(h, b), h.free[i], b).mem)
  {
    var pred := h.free[i];
    var r := MergeBack(MarkFree(h, b), pred, b);
    assert End(r.mem, pred) == End(h.mem, b);
    forall a, x | a in r.mem && x in r.mem && a < x
      ensures End(r.mem, a) <= x
    {
      if a == pred {
        assert x > b;
        assert End(h.mem, b) <= x;
      } else if x == pred {
        assert End(h.mem, a) <= pred;
      } else {
        assert End(r.mem, a) == End(h.mem, a);
      }
    }
  }

  lemma MergeBackMarks(h: Heap, b: Addr, i: nat)
    requires Ascending(h.free) && SentinelOk(h) && FreeListExact(h) && Detached(h)
    requires Releasing(h, b, i) && 1 <= i
    ensures var r := MergeBack(MarkFree(h, b), h.free[i], b);
            SentinelOk(r) && FreeListExact(r) && Detached(r) && Ascending(r.free)
  {
    var pred := h.free[i];
    var r := MergeBack(MarkFree(h, b), pred, b);
    assert h.free[0] < pred;
    forall a | a in r.mem
      ensures !r.mem[a].alloc <==> a in r.free
    {
      if a != pred {
        assert r.mem[a] == h.mem[a];
      }
    }
  }

  lemma MergeBackCoalesced(h: Heap, b: Addr, i: nat)
    requires Releasing(h, b, i) && Ascending(h.free) && Coalesced(h)
    requires End(h.mem, h.free[i]) == b
    ensures var h0 := MarkFree(h, b);
            var r := MergeBack(h0, h.free[i], b);
            && Linked(r) && CoalescedBut(r, i)
  {
    var pred := h.free[i];
    var h0 := MarkFree(h, b);
    MarkFreeLinked(h, b);
    MergeBackLinked(h0, pred, b);
    var r := MergeBack(h0, pred, b);
    var f := h.free;
    forall x, y | 1 <= x && x != i && y == x + 1 && y < |r.free|
      ensures End(r.mem, r.free[x]) < r.free[y]
    {
      assert f[x] != pred;
      assert End(r.mem, f[x]) == End(h.mem, f[x]);
    }
  }

  /** Splicing leaves only the spliced block possibly touching its successor. */
  lemma SpliceStep(h: Heap, b: Addr, i: nat)
    requires Valid(h) && Releasing(h, b, i)
    requires !(1 <= i && End(h.mem, h.free[i]) == b)
    ensures var h0 := MarkFree(h, b);
            && Linked(h0)
            && ValidBut(Splice(h0, i, b), i + 1)
  {
    var h0 := MarkFree(h, b);
    MarkFreeLinked(h, b);
    SpliceLinked(h0, i, b);
    SpliceLayout(h, b, i);
    SpliceMarks(h, b, i);
    SpliceAscending(h, b, i);
    SpliceCoalesced(h, b, i);
  }

  lemma SpliceLayout(h: Heap, b: Addr, i: nat)
    requires Disjoint(h.mem) && Bounded(h) && Aligned(h) && Releasing(h, b, i)
    ensures Linked(MarkFree(h, b))
    ensures var r := Splice(MarkFree(h, b), i, b);
            Disjoint(r.mem) && Bounded(r) && Aligned(r)
  {
    MarkFreeLinked(h, b);
    var r := Splice(MarkFree(h, b), i, b);
    assert SameExtents(r.mem, h.mem);
    LayoutSameExtents(r, h);
  }

  lemma SpliceMarks(h: Heap, b: Addr, i: nat)
    requires SentinelOk(h) && FreeListExact(h) && Detached(h) && Releasing(h, b, i)
    ensures Linked(MarkFree(h, b))
    ensures var r := Splice(MarkFree(h, b), i, b);
            SentinelOk(r) && FreeListExact(r) && Detached(r)
  {
    MarkFreeLinked(h, b);
    var r := Splice(MarkFree(h, b), i, b);
    var f := h.free;
    assert r.free[0] == f[0];
    forall a | a in r.mem
      ensures !r.mem[a].alloc <==> a in r.free
    {
      if a != b {
        assert r.mem[a].alloc == h.mem[a].alloc;
        if a in f {
          var m :| 0 <= m < |f| && f[m] == a;
          if m < i + 1 { assert r.free[m] == a; } else { assert r.free[m + 1] == a; }
        }
        if a in r.free {
          var m :| 0 <= m < |r.free| && r.free[m] == a;
          if m < i + 1 { assert f[m] == a; } else { assert f[m - 1] == a; }
        }
      } else {
        assert r.free[i + 1] == b;
      }
    }
  }

  lemma SpliceAscending(h: Heap, b: Addr, i: nat)
    requires Ascending(h.free) && Releasing(h, b, i)
    ensures Linked(MarkFree(h, b))
    ensures Ascending(Splice(MarkFree(h, b), i, b).free)
  {
    MarkFreeLinked(h, b);
    var r := Splice(MarkFree(h, b), i, b).free;
    var f := h.free;
    forall x, y | 0 <= x < y < |r|
      ensures r[x] < r[y]
    {
      if y < i + 1 {
        assert r[x] == f[x] && r[y] == f[y];
      } else if y == i + 1 {
        assert r[x] == f[x] && f[x] <= f[i];
      } else if x < i + 1 {
        assert r[x] == f[x] && r[y] == f[y - 1] && f[x] <= f[i] < b;
      } else if x == i + 1 {
        assert r[y] == f[y - 1] && f[i + 1] <= f[y - 1];
      } else {
        assert r[x] == f[x - 1] && r[y] == f[y - 1];
      }
    }
  }

  lemma SpliceCoalesced(h: Heap, b: Addr, i: nat)
    requires Releasing(h, b, i) && Ascending(h.free) && Disjoint(h.mem) && Coalesced(h)
    requires !(1 <= i && End(h.mem, h.free[i]) == b)
    ensures Linked(MarkFree(h, b))
    ensures var r := Splice(MarkFree(h, b), i, b);
            Linked(r) && CoalescedBut(r, i + 1)
  {
    MarkFreeLinked(h, b);
    SpliceLinked(MarkFree(h, b), i, b);
    SplicePairs(h, b, i, Splice(MarkFree(h, b), i, b));
  }

  /** Every pair of neighbours on the spliced list, but the spliced block and its successor, is apart. */
  lemma SplicePairs(h: Heap, b: Addr, i: nat, r: Heap)
    requires Releasing(h, b, i) && Ascending(h.free) && Disjoint(h.mem) && Coalesced(h)
    requires !(1 <= i && End(h.mem, h.free[i]) == b)
    requires Linked(MarkFree(h, b)) && r == Splice(MarkFree(h, b), i, b) && Linked(r)
    ensures CoalescedBut(r, i + 1)
  {
    forall x, y | 1 <= x && x != i + 1 && y == x + 1 && y < |r.free|
      ensures End(r.mem, r.free[x]) < r.free[y]
    {
      SplicePair(h, b, i, x);
    }
  }

  /** One pair of neighbours on the list after splicing, other than the spliced block and its successor. */
  lemma SplicePair(h: Heap, b: Addr, i: nat, x: nat)
    requires Releasing(h, b, i) && Ascending(h.free) && Disjoint(h.mem) && Coalesced(h)
    requires !(1 <= i && End(h.mem, h.free[i]) == b)
    requires 1 <= x && x != i + 1 && x + 1 < |h.free| + 1
    ensures Linked(MarkFree(h, b))
    ensures var r := Splice(MarkFree(h, b), i, b);
            End(r.mem, r.free[x]) < r.free[x + 1]
  {
    if x < i {
      SplicePairBefore(h, b, i, x);
    } else if x == i {
      SplicePairAt(h, b, i);
    } else {
      SplicePairAfter(h, b, i, x);
    }
  }

  /** A pair before the predecessor is an old pair, untouched. */
  lemma SplicePairBefore(h: Heap, b: Addr, i: nat, x: nat)
    requires Releasing(h, b, i) && Coalesced(h)
    requires 1 <= x < i
    ensures Linked(MarkFree(h, b))
    ensures var r := Splice(MarkFree(h, b), i, b);
            End(r.mem, r.free[x]) < r.free[x + 1]
  {
    MarkFreeLinked(h, b);
    var r := Splice(MarkFree(h, b), i, b);
    var f := h.free;
    assert r.free[x] == f[x] && r.free[x + 1] == f[x + 1];
    assert r.mem[f[x]].size == h.mem[f[x]].size;
    assert End(h.mem, f[x]) < f[x + 1];
  }

  /** The predecessor, a real free block, does not touch the freed block. */
  lemma SplicePairAt(h: Heap, b: Addr, i: nat)
    requires Releasing(h, b, i) && Disjoint(h.mem)
    requires 1 <= i && End(h.mem, h.free[i]) != b
    ensures Linked(MarkFree(h, b))
    ensures var r := Splice(MarkFree(h, b), i, b);
            End(r.mem, r.free[i]) < r.free[i + 1]
  {
    MarkFreeLinked(h, b);
    var r := Splice(MarkFree(h, b), i, b);
    var f := h.free;
    assert r.free[i] == f[i] && r.free[i + 1] == b;
    assert r.mem[f[i]].size == h.mem[f[i]].size;
    assert End(h.mem, f[i]) <= b;
  }

  /** A pair after the freed block is an old pair, shifted by one place. */
  lemma SplicePairAfter(h: Heap, b: Addr, i: nat, x: nat)
    requires Releasing(h, b, i) && Coalesced(h)
    requires i + 1 < x && x + 1 < |h.free| + 1
    ensures Linked(MarkFree(h, b))
    ensures var r := Splice(MarkFree(h, b), i, b);
            End(r.mem, r.free[x]) < r.free[x + 1]
  {
    MarkFreeLinked(h, b);
    var r := Splice(MarkFree(h, b), i, b);
    var f := h.free;
    assert r.free[x] == f[x - 1] && r.free[x + 1] == f[x];
    assert r.mem[f[x - 1]].size == h.mem[f[x - 1]].size;
    assert End(h.mem, f[x - 1]) < f[x];
  }

  /** ufree keeps every invariant: after it, the heap is valid again. */
  lemma UFreeValid(h: Heap, p: Addr)
    requires Valid(h) && p >= H && GetBlock(p) in h.mem && GetBlock(p) != h.free[0]
    ensures Valid(UFree(h, p))
  {
    if h.mem[GetBlock(p)].alloc {
      UFreeAllocated(h, p);
      CoalesceValid(h, GetBlock(p), FindPred(h, GetBlock(p), 0));
    } else {
      UFreeListedUnchanged(h, p);
    }
  }

  /** Freeing an allocated block: the walk does not meet it, and ufree goes on to coalesce. */
  lemma UFreeAllocated(h: Heap, p: Addr)
    requires Valid(h) && p >= H && GetBlock(p) in h.mem && GetBlock(p) != h.free[0]
    requires h.mem[GetBlock(p)].alloc
    ensures var b := GetBlock(p);
            var i := FindPred(h, b, 0);
            && Releasing(h, b, i)
            && Linked(MarkFree(h, b))
            && UFree(h, p) == Coalesce(MarkFree(h, b), i, b)
  {
    var b := GetBlock(p);
    FindPredMarkFree(h, b, 0);
    var i := FindPred(h, b, 0);
    LinkedNext(h, i);
    assert b !in h.free;
    assert h.mem[h.free[i]].next != b;
    ReleasingHolds(h, b);
  }

  /** The coalescing step keeps every invariant, on both of its paths. */
  lemma CoalesceValid(h: Heap, b: Addr, i: nat)
    requires Valid(h) && Releasing(h, b, i)
    ensures Linked(MarkFree(h, b))
    ensures Valid(Coalesce(MarkFree(h, b), i, b))
  {
    MarkFreeLinked(h, b);
    if 1 <= i && End(h.mem, h.free[i]) == b {
      BackPathValid(h, b, i);
    } else {
      SplicePathValid(h, b, i);
    }
  }

  /** The backward path of the coalescing step keeps every invariant. */
  lemma BackPathValid(h: Heap, b: Addr, i: nat)
    requires Valid(h) && Releasing(h, b, i)
    requires 1 <= i && End(h.mem, h.free[i]) == b
    ensures Linked(MarkFree(h, b))
    ensures Valid(Coalesce(MarkFree(h, b), i, b))
  {
    var h0 := MarkFree(h, b);
    MarkFreeLinked(h, b);
    CoalesceBackPath(h0, i, b);
    MergeBackStep(h, b, i);
    MergeForwardValid(MergeBack(h0, h.free[i], b), i);
  }

  /** The splice path of the coalescing step keeps every invariant. */
  lemma SplicePathValid(h: Heap, b: Addr, i: nat)
    requires Valid(h) && Releasing(h, b, i)
    requires !(1 <= i && End(h.mem, h.free[i]) == b)
    ensures Linked(MarkFree(h, b))
    ensures Valid(Coalesce(MarkFree(h, b), i, b))
  {
    var h0 := MarkFree(h, b);
    MarkFreeLinked(h, b);
    var g := Splice(h0, i, b);
    SpliceForwardValid(h, b, i, g);
    SpliceFinish(h0, i, b, g);
  }

  /** After the splice only the forward step remains, and it restores validity. */
  lemma SpliceFinish(h0: Heap, i: nat, b: Addr, g: Heap)
    requires Linked(h0) && Ascending(h0.free) && i < |h0.free|
    requires b in h0.mem && b != NULL && b !in h0.free
    requires i + 1 == |h0.free| ==> h0.mem[b].next == NULL
    requires !(1 <= i && End(h0.mem, h0.free[i]) == b)
    requires g == Splice(h0, i, b) && ValidBut(g, i + 1)
    ensures Valid(Coalesce(h0, i, b))
  {
    MergeForwardValid(g, i + 1);
    CoalesceSplicePath(h0, i, b);
  }

  /** Splicing the freed block in and then taking the forward step keeps every invariant. */
  lemma SpliceForwardValid(h: Heap, b: Addr, i: nat, g: Heap)
    requires Valid(h) && Releasing(h, b, i)
    requires !(1 <= i && End(h.mem, h.free[i]) == b)
    requires Linked(MarkFree(h, b)) && g == Splice(MarkFree(h, b), i, b)
    ensures ValidBut(g, i + 1)
  {
    SpliceStep(h, b, i);
  }


  /** Clearing the flag of a block that is already free changes nothing. */
  lemma ListedUnchanged(h: Heap, b: Addr)
    requires Linked(h) && FreeListExact(h) && b in h.free
    ensures b in h.mem && MarkFree(h, b) == h
  {
    var k :| 0 <= k < |h.free| && h.free[k] == b;
    assert !h.mem[b].alloc;
    assert h.mem[b := h.mem[b].(alloc := false)] == h.mem;
  }

  /** In an ascending list, the walk toward a listed block stops at that block's predecessor. */
  lemma FindPredStopsBefore(h: Heap, m: int)
    requires Linked(h) && Ascending(h.free) && 1 <= m < |h.free|
    ensures FindPred(h, h.free[m], 0) == m - 1
  {
  }

  /**
    Freeing a block that is already on the free list (a repeated ufree of a
    block that was not merged away) leaves the heap exactly as it was.
   */
  lemma UFreeListedUnchanged(h: Heap, p: Addr)
    requires Valid(h) && p >= H && GetBlock(p) in h.mem && GetBlock(p) != h.free[0]
    requires !h.mem[GetBlock(p)].alloc
    ensures UFree(h, p) == h
  {
    var b := GetBlock(p);
    var m :| 0 <= m < |h.free| && h.free[m] == b;
    FindPredStopsBefore(h, m);
    LinkedNext(h, m - 1);
    FindPredMarkFree(h, b, 0);
    ListedUnchanged(h, b);
  }

  /** The forward step only regroups free bytes: the set of free bytes does not change. */
  lemma MergeForwardFreeBytes(h: Heap, k: nat, x: int)
    requires Linked(h) && Ascending(h.free) && 1 <= k < |h.free|
    ensures FreeByte(MergeForward(h, k), x) <==> FreeByte(h, x)
  {
    var c := h.free[k];
    LinkedNext(h, k);
    if End(h.mem, c) == h.mem[c].next {
      AbsorbFreeBytes(h, k, x);
    }
  }

  lemma AbsorbFreeBytes(h: Heap, k: nat, x: int)
    requires Linked(h) && Ascending(h.free) && 1 <= k && k + 1 < |h.free|
    requires End(h.mem, h.free[k]) == h.free[k + 1]
    ensures FreeByte(Absorb(h, k), x) <==> FreeByte(h, x)
  {
    AbsorbKeepsFree(h, k, x);
    AbsorbFreeBefore(h, k, x);
  }

  /** A free byte stays free when a block absorbs its successor. */
  lemma AbsorbKeepsFree(h: Heap, k: nat, x: int)
    requires Linked(h) && Ascending(h.free) && 1 <= k && k + 1 < |h.free|
    requires End(h.mem, h.free[k]) == h.free[k + 1]
    ensures FreeByte(h, x) ==> FreeByte(Absorb(h, k), x)
  {
    var r := Absorb(h, k);
    var f := h.free;
    var c, n := f[k], f[k + 1];
    if FreeByte(h, x) {
      assert End(r.mem, c) == End(h.mem, n);
      var m :| 1 <= m < |f| && InBlock(h.mem, f[m], x);
      if m == k || m == k + 1 {
        assert InBlock(r.mem, r.free[k], x);
      } else if m < k {
        assert r.free[m] == f[m] && f[m] < c;
        assert InBlock(r.mem, r.free[m], x);
      } else {
        assert r.free[m - 1] == f[m] && f[m] > c;
        assert InBlock(r.mem, r.free[m - 1], x);
      }
    }
  }

  /** A byte free after the absorption was free before it. */
  lemma AbsorbFreeBefore(h: Heap, k: nat, x: int)
    requires Linked(h) && Ascending(h.free) && 1 <= k && k + 1 < |h.free|
    requires End(h.mem, h.free[k]) == h.free[k + 1]
    ensures FreeByte(Absorb(h, k), x) ==> FreeByte(h, x)
  {
    var r := Absorb(h, k);
    var f := h.free;
    var c, n := f[k], f[k + 1];
    if FreeByte(r, x) {
      assert End(r.mem, c) == End(h.mem, n);
      var m :| 1 <= m < |r.free| && InBlock(r.mem, r.free[m], x);
      if m == k {
        if x < n {
          assert InBlock(h.mem, f[k], x);
        } else {
          assert InBlock(h.mem, f[k + 1], x);
        }
      } else if m < k {
        assert r.free[m] == f[m] && f[m] < c;
        assert InBlock(h.mem, f[m], x);
      } else {
        assert r.free[m] == f[m + 1] && f[m + 1] > c;
        assert InBlock(h.mem, f[m + 1], x);
      }
    }
  }

  /** Backward coalescing adds exactly the freed block's bytes to the free bytes. */
  lemma MergeBackFreeBytes(h: Heap, b: Addr, i: nat, x: int)
    requires Releasing(h, b, i) && Ascending(h.free)
    requires 1 <= i && End(h.mem, h.free[i]) == b
    ensures FreeByte(MergeBack(MarkFree(h, b), h.free[i], b), x) <==> FreeByte(h, x) || InBlock(h.mem, b, x)
  {
    MergeBackGains(h, b, i, x);
    MergeBackFreeBefore(h, b, i, x);
  }

  /** Backward coalescing keeps every free byte and adds the freed block's. */
  lemma MergeBackGains(h: Heap, b: Addr, i: nat, x: int)
    requires Releasing(h, b, i) && Ascending(h.free)
    requires 1 <= i && End(h.mem, h.free[i]) == b
    ensures FreeByte(h, x) || InBlock(h.mem, b, x) ==> FreeByte(MergeBack(MarkFree(h, b), h.free[i], b), x)
  {
    var pred := h.free[i];
    var r := MergeBack(MarkFree(h, b), pred, b);
    var f := h.free;
    assert End(r.mem, pred) == End(h.mem, b);
    if FreeByte(h, x) {
      var m :| 1 <= m < |f| && InBlock(h.mem, f[m], x);
      if f[m] != pred {
        assert r.mem[f[m]] == h.mem[f[m]];
      }
      assert InBlock(r.mem, r.free[m], x);
    }
    if InBlock(h.mem, b, x) {
      assert InBlock(r.mem, r.free[i], x);
    }
  }

  /** A byte free after backward coalescing was free before, or in the freed block. */
  lemma MergeBackFreeBefore(h: Heap, b: Addr, i: nat, x: int)
    requires Releasing(h, b, i) && Ascending(h.free)
    requires 1 <= i && End(h.mem, h.free[i]) == b
    ensures FreeByte(MergeBack(MarkFree(h, b), h.free[i], b), x) ==> FreeByte(h, x) || InBlock(h.mem, b, x)
  {
    var pred := h.free[i];
    var r := MergeBack(MarkFree(h, b), pred, b);
    var f := h.free;
    if FreeByte(r, x) {
      assert End(r.mem, pred) == End(h.mem, b);
      var m :| 1 <= m < |r.free| && InBlock(r.mem, r.free[m], x);
      if f[m] == pred {
        if x >= b {
          assert InBlock(h.mem, b, x);
        } else {
          assert InBlock(h.mem, f[m], x);
        }
      } else {
        assert r.mem[f[m]] == h.mem[f[m]];
        assert InBlock(h.mem, f[m], x);
      }
    }
  }

  /** Splicing adds exactly the freed block's bytes to the free bytes. */
  lemma SpliceFreeBytes(h: Heap, b: Addr, i: nat, x: int)
    requires Releasing(h, b, i)
    ensures Linked(MarkFree(h, b))
    ensures FreeByte(Splice(MarkFree(h, b), i, b), x) <==> FreeByte(h, x) || InBlock(h.mem, b, x)
  {
    SpliceGains(h, b, i, x);
    SpliceFreeBefore(h, b, i, x);
  }

  /** Splicing keeps every free byte and adds the freed block's. */
  lemma SpliceGains(h: Heap, b: Addr, i: nat, x: int)
    requires Releasing(h, b, i)
    ensures Linked(MarkFree(h, b))
    ensures FreeByte(h, x) || InBlock(h.mem, b, x) ==> FreeByte(Splice(MarkFree(h, b), i, b), x)
  {
    MarkFreeLinked(h, b);
    var r := Splice(MarkFree(h, b), i, b);
    var f := h.free;
    if FreeByte(h, x) {
      var m :| 1 <= m < |f| && InBlock(h.mem, f[m], x);
      assert r.mem[f[m]].size == h.mem[f[m]].size;
      if m < i + 1 {
        assert InBlock(r.mem, r.free[m], x);
      } else {
        assert InBlock(r.mem, r.free[m + 1], x);
      }
    }
    if InBlock(h.mem, b, x) {
      assert InBlock(r.mem, r.free[i + 1], x);
    }
  }

  /** A byte free after the splice was free before, or in the freed block. */
  lemma SpliceFreeBefore(h: Heap, b: Addr, i: nat, x: int)
    requires Releasing(h, b, i)
    ensures Linked(MarkFree(h, b))
    ensures FreeByte(Splice(MarkFree(h, b), i, b), x) ==> FreeByte(h, x) || InBlock(h.mem, b, x)
  {
    MarkFreeLinked(h, b);
    var r := Splice(MarkFree(h, b), i, b);
    var f := h.free;
    if FreeByte(r, x) {
      var m :| 1 <= m < |r.free| && InBlock(r.mem, r.free[m], x);
      if m < i + 1 {
        assert r.free[m] == f[m] && r.mem[f[m]].size == h.mem[f[m]].size;
        assert InBlock(h.mem, f[m], x);
      } else if m > i + 1 {
        assert r.free[m] == f[m - 1] && r.mem[f[m - 1]].size == h.mem[f[m - 1]].size;
        assert InBlock(h.mem, f[m - 1], x);
      }
    }
  }

  /** The coalescing step adds exactly the freed block's bytes to the free bytes. */
  lemma CoalesceFreeBytes(h: Heap, b: Addr, i: nat, x: int)
    requires Releasing(h, b, i) && Ascending(h.free)
    ensures Linked(MarkFree(h, b))
    ensures FreeByte(Coalesce(MarkFree(h, b), i, b), x) <==> FreeByte(h, x) || InBlock(h.mem, b, x)
  {
    var h0 := MarkFree(h, b);
    MarkFreeLinked(h, b);
    var pred := h.free[i];
    if 1 <= i && End(h.mem, pred) == b {
      MergeBackLinked(h0, pred, b);
      var r := MergeForward(MergeBack(h0, pred, b), i);
      assert Coalesce(h0, i, b) == r;
      assert FreeByte(r, x) <==> FreeByte(h, x) || InBlock(h.mem, b, x) by {
        BackPathFreeBytes(h, b, i, x);
      }
    } else {
      SpliceLinked(h0, i, b);
      var r := MergeForward(Splice(h0, i, b), i + 1);
      assert Coalesce(h0, i, b) == r;
      assert FreeByte(r, x) <==> FreeByte(h, x) || InBlock(h.mem, b, x) by {
        SplicePathFreeBytes(h, b, i, x);
      }
    }
  }

  lemma BackPathFreeBytes(h: Heap, b: Addr, i: nat, x: int)
    requires Releasing(h, b, i) && Ascending(h.free)
    requires 1 <= i && End(h.mem, h.free[i]) == b
    ensures Linked(MarkFree(h, b)) && Linked(MergeBack(MarkFree(h, b), h.free[i], b))
    ensures FreeByte(MergeForward(MergeBack(MarkFree(h, b), h.free[i], b), i), x)
            <==> FreeByte(h, x) || InBlock(h.mem, b, x)
  {
    var h0 := MarkFree(h, b);
    MarkFreeLinked(h, b);
    MergeBackLinked(h0, h.free[i], b);
    MergeBackFreeBytes(h, b, i, x);
    MergeForwardFreeBytes(MergeBack(h0, h.free[i], b), i, x);
  }

  lemma SplicePathFreeBytes(h: Heap, b: Addr, i: nat, x: int)
    requires Releasing(h, b, i) && Ascending(h.free)
    ensures Linked(MarkFree(h, b)) && Linked(Splice(MarkFree(h, b), i, b))
    ensures FreeByte(MergeForward(Splice(MarkFree(h, b), i, b), i + 1), x)
            <==> FreeByte(h, x) || InBlock(h.mem, b, x)
  {
    MarkFreeLinked(h, b);
    SpliceLinked(MarkFree(h, b), i, b);
    var h1 := Splice(MarkFree(h, b), i, b);
    var before := FreeByte(h, x) || InBlock(h.mem, b, x);
    assert FreeByte(h1, x) <==> before by {
      SpliceFreeBytes(h, b, i, x);
    }
    assert Ascending(h1.free) && i + 1 < |h1.free| by {
      SpliceAscending(h, b, i);
    }
    ForwardKeepsFreeBytes(h1, i + 1, x, before);
  }

  /** The forward step after a splice keeps whatever the splice made free. */
  lemma ForwardKeepsFreeBytes(h1: Heap, k: nat, x: int, before: bool)
    requires Linked(h1) && Ascending(h1.free) && 1 <= k < |h1.free|
    requires FreeByte(h1, x) <==> before
    ensures FreeByte(MergeForward(h1, k), x) <==> before
  {
    MergeForwardFreeBytes(h1, k, x);
  }

  /**
    Freeing an allocated block makes exactly its bytes (header and payload)
    free, on top of the bytes that were free before.
   */
  lemma UFreeFreeBytes(h: Heap, p: Addr, x: int)
    requires Valid(h) && p >= H && GetBlock(p) in h.mem && GetBlock(p) != h.free[0]
    requires h.mem[GetBlock(p)].alloc
    ensures FreeByte(UFree(h, p), x) <==> FreeByte(h, x) || InBlock(h.mem, GetBlock(p), x)
  {
    UFreeAllocated(h, p);
    CoalesceFreeBytes(h, GetBlock(p), FindPred(h, GetBlock(p), 0), x);
  }

  /** Keeping allocated blocks composes along a sequence of steps. */
  lemma KeepsAllocatedThen(h: Heap, h1: Heap, h2: Heap, except: set<Addr>)
    requires KeepsAllocated(h, h1, except) && KeepsAllocated(h1, h2, {})
    ensures KeepsAllocated(h, h2, except)
  {
  }

  /** The forward step touches only listed, hence free, blocks. */
  lemma MergeForwardKeeps(h: Heap, k: nat)
    requires Linked(h) && FreeListExact(h) && k < |h.free|
    ensures KeepsAllocated(h, MergeForward(h, k), {})
  {
    var c := h.free[k];
    LinkedNext(h, k);
    if End(h.mem, c) == h.mem[c].next {
      assert h.free[k + 1] in h.free;
    }
  }

  /** The backward merge touches the freed block and its free predecessor only. */
  lemma MergeBackKeeps(h: Heap, b: Addr, i: nat)
    requires Releasing(h, b, i) && FreeListExact(h)
    ensures KeepsAllocated(h, MergeBack(MarkFree(h, b), h.free[i], b), {b})
  {
    assert h.free[i] in h.free;
  }

  /** Splicing touches the freed block and its free predecessor only. */
  lemma SpliceKeeps(h: Heap, b: Addr, i: nat)
    requires Releasing(h, b, i) && FreeListExact(h)
    ensures Linked(MarkFree(h, b))
    ensures KeepsAllocated(h, Splice(MarkFree(h, b), i, b), {b})
  {
    MarkFreeLinked(h, b);
    assert h.free[i] in h.free;
  }

  /** ufree leaves every other allocated block exactly as it was. */
  lemma UFreeKeepsAllocated(h: Heap, p: Addr)
    requires Valid(h) && p >= H && GetBlock(p) in h.mem && GetBlock(p) != h.free[0]
    ensures KeepsAllocated(h, UFree(h, p), {GetBlock(p)})
  {
    if h.mem[GetBlock(p)].alloc {
      UFreeAllocated(h, p);
      CoalesceKeeps(h, GetBlock(p), FindPred(h, GetBlock(p), 0));
    } else {
      UFreeListedUnchanged(h, p);
    }
  }

  /** The coalescing step touches the freed block and free blocks only. */
  lemma CoalesceKeeps(h: Heap, b: Addr, i: nat)
    requires Valid(h) && Releasing(h, b, i)
    ensures Linked(MarkFree(h, b))
    ensures KeepsAllocated(h, Coalesce(MarkFree(h, b), i, b), {b})
  {
    MarkFreeLinked(h, b);
    if 1 <= i && End(h.mem, h.free[i]) == b {
      BackPathKeeps(h, b, i);
    } else {
      SplicePathKeeps(h, b, i);
    }
  }

  /** On its backward path the coalescing step touches the freed block and free blocks only. */
  lemma BackPathKeeps(h: Heap, b: Addr, i: nat)
    requires Releasing(h, b, i) && Ascending(h.free) && SentinelOk(h) && FreeListExact(h) && Detached(h)
    requires 1 <= i && End(h.mem, h.free[i]) == b
    ensures Linked(MarkFree(h, b))
    ensures KeepsAllocated(h, Coalesce(MarkFree(h, b), i, b), {b})
  {
    var h0 := MarkFree(h, b);
    MarkFreeLinked(h, b);
    var h1 := MergeBack(h0, h.free[i], b);
    CoalesceBackPath(h0, i, b);
    MergeBackMarks(h, b, i);
    MergeBackKeeps(h, b, i);
    MergeForwardKeeps(h1, i);
    KeepsAllocatedThen(h, h1, MergeForward(h1, i), {b});
  }

  /** On its splice path the coalescing step touches the freed block and free blocks only. */
  lemma SplicePathKeeps(h: Heap, b: Addr, i: nat)
    requires Releasing(h, b, i) && Ascending(h.free) && SentinelOk(h) && FreeListExact(h) && Detached(h)
    requires !(1 <= i && End(h.mem, h.free[i]) == b)
    ensures Linked(MarkFree(h, b))
    ensures KeepsAllocated(h, Coalesce(MarkFree(h, b), i, b), {b})
  {
    var h0 := MarkFree(h, b);
    MarkFreeLinked(h, b);
    var h1 := Splice(h0, i, b);
    CoalesceSplicePath(h0, i, b);
    SpliceMarks(h, b, i);
    SpliceKeeps(h, b, i);
    MergeForwardKeeps(h1, i + 1);
    KeepsAllocatedThen(h, h1, MergeForward(h1, i + 1), {b});
  }


  /** The backward path of the coalescing step, unfolded. */
  lemma CoalesceBackPath(h: Heap, i: nat, b: Addr)
    requires Linked(h) && Ascending(h.free) && i < |h.free|
    requires b in h.mem && b != NULL && b !in h.free
    requires i + 1 == |h.free| ==> h.mem[b].next == NULL
    requires 1 <= i && End(h.mem, h.free[i]) == b
    ensures Linked(MergeBack(h, h.free[i], b))
    ensures Coalesce(h, i, b) == MergeForward(MergeBack(h, h.free[i], b), i)
  {
    MergeBackLinked(h, h.free[i], b);
  }

  /** The splice path of the coalescing step, unfolded. */
  lemma CoalesceSplicePath(h: Heap, i: nat, b: Addr)
    requires Linked(h) && Ascending(h.free) && i < |h.free|
    requires b in h.mem && b != NULL && b !in h.free
    requires i + 1 == |h.free| ==> h.mem[b].next == NULL
    requires !(1 <= i && End(h.mem, h.free[i]) == b)
    ensures Linked(Splice(h, i, b))
    ensures Coalesce(h, i, b) == MergeForward(Splice(h, i, b), i + 1)
  {
    SpliceLinked(h, i, b);
  }
}
