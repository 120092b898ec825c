/**
  The allocator's state and the structural invariants every public operation
  must keep (the properties verify_memory.c inspects, plus the layout facts
  they rely on).
 */
module Heaps {
  import opened Memory
  import opened Blocks

  /**
    The whole allocator state:
    - `mem`: the decoded header of every block, by header address;
    - `free`: the free list in list order, `free[0]` being the sentinel
      `free_head`; empty before uinit has run (free_head is NULL);
    - `brk`: the end of the heap, where the growth primitive hands out the
      next region.
    `Linked` ties `free` to the `next` fields of the headers.
   */
  datatype Heap = Heap(mem: map<Addr, Header>, free: seq<Addr>, brk: Addr)

  /** The first byte past block `a`: header, then `size` payload bytes. */
  function End(mem: map<Addr, Header>, a: Addr): nat
    requires a in mem
  {
    a + H + mem[a].size
  }

  /** The list successor of position `k`, or NULL after the last node. */
  function Succ(s: seq<Addr>, k: nat): Addr
  {
    if k + 1 < |s| then s[k + 1] else NULL
  }

  /**
    Every free-list node is a real header whose `next` names the following
    node; the last node's `next` is NULL.
   */
  ghost predicate Linked(h: Heap)
  {
    && (forall k :: 0 <= k < |h.free| ==> h.free[k] != NULL && h.free[k] in h.mem)
    && (forall i, j :: 0 <= i && j == i + 1 && j < |h.free| ==> h.mem[h.free[i]].next == h.free[j])
    && (|h.free| > 0 ==> h.mem[h.free[|h.free| - 1]].next == NULL)
  }

  /** The link of list position `k` is its list successor. */
  lemma LinkedNext(h: Heap, k: int)
    requires Linked(h) && 0 <= k < |h.free|
    ensures h.mem[h.free[k]].next == Succ(h.free, k)
  {
    if k + 1 < |h.free| {
      assert h.free[k + 1] == h.free[k + 1];
    }
  }

  /** The packed words `raw` decode to the headers `mem`, address by address. */
  ghost predicate Decodes(raw: map<Addr, Block>, mem: map<Addr, Header>)
  {
    raw.Keys == mem.Keys && forall a :: a in raw ==> Decode(raw[a]) == mem[a]
  }

  /**
    get_next, applied to the packed words of a linked heap, steps from each
    free-list node to the following node and from the last node to NULL, so
    following it from the sentinel walks exactly the free list.
   */
  lemma GetNextFollowsList(raw: map<Addr, Block>, h: Heap, k: int)
    requires Linked(h) && Decodes(raw, h.mem) && 0 <= k < |h.free|
    ensures h.free[k] in raw && GetNext(raw, h.free[k]) == Succ(h.free, k)
    ensures Succ(h.free, k) == NULL || Succ(h.free, k) in raw
  {
    LinkedNext(h, k);
    assert Decode(raw[h.free[k]]) == h.mem[h.free[k]];
  }

  /**
    `n` steps of get_next from `p`, as the list walks in umalloc.c take them;
    a walk that reaches NULL (or an address without a header) stays at NULL.
   */
  function Walk(raw: map<Addr, Block>, p: Addr, n: nat): Addr
    decreases n
  {
    if n == 0 then p
    else if p == NULL || p !in raw then NULL
    else Walk(raw, GetNext(raw, p), n - 1)
  }

  /**
    Walking get_next from free-list node `j` visits the following nodes in
    list order, and one step past the last node it reaches NULL.
   */
  lemma {:induction false} WalkFollowsList(raw: map<Addr, Block>, h: Heap, j: nat, n: nat)
    requires Linked(h) && Decodes(raw, h.mem) && j < |h.free| && j + n <= |h.free|
    ensures j + n < |h.free| ==> Walk(raw, h.free[j], n) == h.free[j + n]
    ensures j + n == |h.free| ==> Walk(raw, h.free[j], n) == NULL
    decreases n
  {
    if n > 0 {
      GetNextFollowsList(raw, h, j);
      if j + 1 < |h.free| {
        WalkFollowsList(raw, h, j + 1, n - 1);
      }
    }
  }

  /** Strictly increasing addresses along a list. */
  ghost predicate Ascending(s: seq<Addr>)
  {
    forall i, j :: 0 <= i < j < |s| ==> s[i] < s[j]
  }

  /** No two blocks overlap: a block ends at or before the start of any later one. */
  ghost predicate Disjoint(mem: map<Addr, Header>)
  {
    forall a, c :: a in mem && c in mem && a < c ==> End(mem, a) <= c
  }

  /** Every block lies below the heap end, and none sits at the null address. */
  ghost predicate Bounded(h: Heap)
  {
    && h.brk != NULL
    && NULL !in h.mem
    && forall a :: a in h.mem ==> End(h.mem, a) <= h.brk
  }

  /** Headers and sizes are 16-byte aligned, and so is the heap end. */
  ghost predicate Aligned(h: Heap)
  {
    && h.brk % ALIGNMENT == 0
    && forall a :: a in h.mem ==> a % ALIGNMENT == 0 && h.mem[a].size % ALIGNMENT == 0
  }

  /** The sentinel heads the list, has size 0, is free, and is the lowest block. */
  ghost predicate SentinelOk(h: Heap)
  {
    && |h.free| >= 1
    && h.free[0] in h.mem
    && h.mem[h.free[0]].size == 0
    && !h.mem[h.free[0]].alloc
    && forall a :: a in h.mem ==> h.free[0] <= a
  }

  /** The free list holds exactly the blocks not marked allocated. */
  ghost predicate FreeListExact(h: Heap)
  {
    forall a :: a in h.mem ==> (!h.mem[a].alloc <==> a in h.free)
  }

  /** An allocated block is on no list: its link is NULL. */
  ghost predicate Detached(h: Heap)
  {
    forall a :: a in h.mem && h.mem[a].alloc ==> h.mem[a].next == NULL
  }

  /**
    No two consecutive free blocks after the sentinel touch: each ends strictly
    before its successor starts (the sentinel's own header may abut the first).
   */
  ghost predicate Coalesced(h: Heap)
    requires Linked(h)
  {
    forall i, j :: 1 <= i && j == i + 1 && j < |h.free| ==> End(h.mem, h.free[i]) < h.free[j]
  }

  /** The invariant every public operation preserves. */
  ghost predicate Valid(h: Heap)
  {
    && Linked(h)
    && SentinelOk(h)
    && Ascending(h.free)
    && Disjoint(h.mem)
    && Bounded(h)
    && Aligned(h)
    && FreeListExact(h)
    && Detached(h)
    && Coalesced(h)
  }

  /** Byte `x` lies in block `a` (header or payload). */
  ghost predicate InBlock(mem: map<Addr, Header>, a: Addr, x: int)
  {
    a in mem && a <= x < End(mem, a)
  }

  /** Byte `x` belongs to a free block other than the sentinel. */
  ghost predicate FreeByte(h: Heap, x: int)
  {
    exists k :: 1 <= k < |h.free| && InBlock(h.mem, h.free[k], x)
  }

  /** Every block allocated in `h`, other than those at `except`, is still there, unchanged, in `h2`. */
  ghost predicate KeepsAllocated(h: Heap, h2: Heap, except: set<Addr>)
  {
    forall a :: a in h.mem && a !in except && h.mem[a].alloc ==> a in h2.mem && h2.mem[a] == h.mem[a]
  }

  /** The heap before uinit: nothing allocated yet, the heap end at an aligned, non-null address. */
  function EmptyHeap(base: Addr): (h: Heap)
    requires base != NULL && base % ALIGNMENT == 0
    ensures h.mem == map[] && h.free == [] && h.brk == base
  {
    Heap(map[], [], base)
  }

  /** `s` without its element at position `k`. */
  function RemoveAt(s: seq<Addr>, k: nat): (r: seq<Addr>)
    requires k < |s|
    ensures |r| == |s| - 1
    ensures forall j :: 0 <= j < k ==> r[j] == s[j]
    ensures forall j :: k <= j < |r| ==> r[j] == s[j + 1]
  {
    s[..k] + s[k + 1..]
  }

  /** `s` with `x` inserted at position `k`. */
  function InsertAt(s: seq<Addr>, k: nat, x: Addr): (r: seq<Addr>)
    requires k <= |s|
    ensures |r| == |s| + 1
    ensures r[k] == x
    ensures forall j :: 0 <= j < k ==> r[j] == s[j]
    ensures forall j :: k < j < |r| ==> r[j] == s[j - 1]
  {
    s[..k] + [x] + s[k..]
  }

  /** In an ascending list, positions and addresses are in the same order, and no address repeats. */
  lemma AscendingIndex(s: seq<Addr>, i: int, j: int)
    requires Ascending(s)
    requires 0 <= i < |s| && 0 <= j < |s|
    ensures s[i] < s[j] <==> i < j
    ensures s[i] == s[j] <==> i == j
  {
  }

  /** In a valid heap a free-list node's successor starts at or after its end. */
  lemma SuccessorAfterEnd(h: Heap, k: int)
    requires Valid(h)
    requires 0 <= k && k + 1 < |h.free|
    ensures End(h.mem, h.free[k]) <= h.free[k + 1]
  {
    assert h.free[k] < h.free[k + 1];
  }

  /** Two header maps with the same blocks, of the same sizes: links and flags may differ. */
  ghost predicate SameExtents(m1: map<Addr, Header>, m2: map<Addr, Header>)
  {
    m1.Keys == m2.Keys && forall a :: a in m1 ==> m1[a].size == m2[a].size
  }

  /** Maps with the same extents give every block the same end. */
  lemma EndSameExtents(m1: map<Addr, Header>, m2: map<Addr, Header>)
    requires SameExtents(m1, m2)
    ensures forall a :: a in m1 ==> End(m1, a) == End(m2, a)
  {
  }

  /** Layout depends on extents alone: a heap with the same blocks and end keeps it. */
  lemma LayoutSameExtents(r: Heap, h: Heap)
    requires SameExtents(r.mem, h.mem) && r.brk == h.brk
    requires Disjoint(h.mem) && Bounded(h) && Aligned(h)
    ensures Disjoint(r.mem) && Bounded(r) && Aligned(r)
  {
    EndSameExtents(r.mem, h.mem);
  }

  /** Maps with the same extents place every byte in the same blocks. */
  lemma InBlockSameExtents(m1: map<Addr, Header>, m2: map<Addr, Header>, a: Addr, x: int)
    requires SameExtents(m1, m2)
    ensures InBlock(m1, a, x) <==> InBlock(m2, a, x)
  {
  }

  /** In a heap without overlap, a byte lies in at most one block: a byte of `a` is in no other block. */
  lemma OneBlockPerByte(mem: map<Addr, Header>, a: Addr, c: Addr, x: int)
    requires Disjoint(mem)
    requires InBlock(mem, a, x) && c != a
    ensures !InBlock(mem, c, x)
  {
  }
}
