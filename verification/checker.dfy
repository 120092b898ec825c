/**
  verify_memory.c: the heap checker. It walks the free list from the first
  block after the sentinel, tests every block that has a successor, and folds
  five failure flags into a bitmask error code.

  `VerifyMemory` is the checker with its list walk advancing as its loop
  evidently intends and with the sentinel test the right way round; module
  CheckerAsWritten models the loop and the sentinel test exactly as they stand.
 */
module Checker {
  import opened Memory
  import opened Blocks
  import opened Heaps

  /** 2^64: the width of `size_t` and of the machine's pointers. */
  const WORD_MODULUS: int := 0x1_0000_0000_0000_0000

  /**
    A value converted to `size_t`. The checker compares a signed pointer
    difference with an unsigned `sizeof(...) + get_size(...)`; C converts the
    difference to unsigned, which is reduction modulo 2^64.
   */
  function AsSize(x: int): (r: nat)
    ensures r < WORD_MODULUS
    ensures 0 <= x < WORD_MODULUS ==> r == x
    ensures -WORD_MODULUS <= x < 0 ==> r == x + WORD_MODULUS
  {
    x % WORD_MODULUS
  }

  /** The five flags of the checker: fail_1 ... fail_5. */
  datatype Failures = Failures(allocatedOnList: bool, unordered: bool, overlapping: bool, touching: bool, sentinel: bool)

  const NO_FAILURES: Failures := Failures(false, false, false, false, false)

  /** The bitmask the checker returns: 1, 2, 4, 8 and 16 for the five flags. */
  function ErrorCode(f: Failures): (code: nat)
    ensures code < 32
    ensures code == 0 <==> f == NO_FAILURES
  {
    (if f.allocatedOnList then 1 else 0) + (if f.unordered then 2 else 0) + (if f.overlapping then 4 else 0)
    + (if f.touching then 8 else 0) + (if f.sentinel then 16 else 0)
  }

  /** Reading the flags back out of an error code, one bit each. */
  function DecodeErrorCode(code: nat): Failures
  {
    Failures(code % 2 == 1, code / 2 % 2 == 1, code / 4 % 2 == 1, code / 8 % 2 == 1, code / 16 % 2 == 1)
  }

  /*
    The four tests the loop applies to a block `a` that has a successor, all in
    terms of `a`'s header: the successor's address is the header's link.
   */

  /** `(char *)a->next - (char *)a`: the signed distance from a block to its successor. */
  function Gap(mem: map<Addr, Header>, a: Addr): (d: int)
    requires a in mem
    ensures a + d == mem[a].next
  {
    mem[a].next as int - a as int
  }

  /**
    fail_1: a block on the free list is marked allocated, that is the
    allocated bit of its packed header word is set.
   */
  function FailsAllocated(mem: map<Addr, Header>, a: Addr): (r: bool)
    requires a in mem
    ensures mem[a].size % ALIGNMENT == 0 ==> (r <==> IsAllocated(Encode(mem[a])))
  {
    mem[a].alloc
  }

  /** fail_2: the successor does not lie at a higher address (signed difference). */
  function FailsOrder(mem: map<Addr, Header>, a: Addr): (r: bool)
    requires a in mem
    ensures r <==> mem[a].next <= a
  {
    Gap(mem, a) <= 0
  }

  /**
    fail_3: the successor starts before the block ends (unsigned comparison).
    With addresses inside the 64-bit space, a successor below the block wraps
    to a huge distance, so only a forward successor inside the block fails.
   */
  function FailsOverlap(mem: map<Addr, Header>, a: Addr): (r: bool)
    requires a in mem
    ensures End(mem, a) < WORD_MODULUS && mem[a].next < WORD_MODULUS ==>
              (r <==> a <= mem[a].next < End(mem, a))
  {
    AsSize(Gap(mem, a)) < AsSize(H + mem[a].size)
  }

  /**
    fail_4: the successor starts exactly where the block ends, so two free
    blocks touch.
   */
  function FailsTouch(mem: map<Addr, Header>, a: Addr): (r: bool)
    requires a in mem
    ensures End(mem, a) < WORD_MODULUS && mem[a].next < WORD_MODULUS ==>
              (r <==> mem[a].next == End(mem, a))
  {
    AsSize(Gap(mem, a)) == AsSize(H + mem[a].size)
  }

  /** One pass of the loop body at block `a`: each flag is or-ed with its test. */
  function CheckBlock(mem: map<Addr, Header>, a: Addr, f: Failures): (r: Failures)
    requires a in mem
    ensures r.sentinel == f.sentinel
    ensures r.allocatedOnList <==> f.allocatedOnList || FailsAllocated(mem, a)
    ensures r.unordered <==> f.unordered || FailsOrder(mem, a)
    ensures r.overlapping <==> f.overlapping || FailsOverlap(mem, a)
    ensures r.touching <==> f.touching || FailsTouch(mem, a)
  {
    f.(allocatedOnList := f.allocatedOnList || mem[a].alloc,
       unordered := f.unordered || Gap(mem, a) <= 0,
       overlapping := f.overlapping || AsSize(Gap(mem, a)) < AsSize(H + mem[a].size),
       touching := f.touching || AsSize(Gap(mem, a)) == AsSize(H + mem[a].size))
  }

  /** List position `k` is one the loop tests: after the sentinel and with a successor. */
  ghost predicate Tested(h: Heap, k: int)
  {
    1 <= k && k + 1 < |h.free|
  }

  /**
    What the checker should report, stated over the whole list at once: a flag
    is set exactly when some tested position fails its test, and the sentinel
    flag when the sentinel's size is no longer 0.
   */
  ghost function Expected(h: Heap): Failures
    requires Linked(h) && |h.free| >= 1
  {
    Failures(
      exists k :: Tested(h, k) && FailsAllocated(h.mem, h.free[k]),
      exists k :: Tested(h, k) && FailsOrder(h.mem, h.free[k]),
      exists k :: Tested(h, k) && FailsOverlap(h.mem, h.free[k]),
      exists k :: Tested(h, k) && FailsTouch(h.mem, h.free[k]),
      h.mem[h.free[0]].size != 0)
  }

  /** The flags after the loop has visited list positions 1 .. k - 1. */
  ghost function Scan(h: Heap, k: int): (r: Failures)
    requires Linked(h) && 1 <= k <= |h.free|
    ensures !r.sentinel
    decreases k
  {
    if k == 1 then NO_FAILURES
    else if Tested(h, k - 1) then CheckBlock(h.mem, h.free[k - 1], Scan(h, k - 1))
    else Scan(h, k - 1)
  }

  /** After positions 1 .. k - 1, each flag records whether one of them failed its test. */
  lemma {:induction false} ScanReports(h: Heap, k: int)
    requires Linked(h) && 1 <= k <= |h.free|
    ensures !Scan(h, k).sentinel
    ensures Scan(h, k).allocatedOnList <==> exists j :: 1 <= j < k && Tested(h, j) && FailsAllocated(h.mem, h.free[j])
    ensures Scan(h, k).unordered <==> exists j :: 1 <= j < k && Tested(h, j) && FailsOrder(h.mem, h.free[j])
    ensures Scan(h, k).overlapping <==> exists j :: 1 <= j < k && Tested(h, j) && FailsOverlap(h.mem, h.free[j])
    ensures Scan(h, k).touching <==> exists j :: 1 <= j < k && Tested(h, j) && FailsTouch(h.mem, h.free[j])
    decreases k
  {
    if k > 1 {
      ScanReports(h, k - 1);
    }
  }

  /** Once every tested position lies below `k`, the flags are the expected ones, bar the sentinel's. */
  lemma ScanComplete(h: Heap, k: int)
    requires Linked(h) && 1 <= k <= |h.free|
    requires forall j :: Tested(h, j) ==> j < k
    ensures Scan(h, k).(sentinel := h.mem[h.free[0]].size != 0) == Expected(h)
  {
    ScanReports(h, k);
  }

  /**
    verify_memory, with `test = test->next` inside the loop and fail_5 set
    when the sentinel's size is not 0. It needs uinit to have run (it reads
    `free_head`), and it only reads the heap.
   */
  method VerifyMemory(h: Heap) returns (error: nat)
    requires Linked(h) && |h.free| >= 1
    ensures error == ErrorCode(Expected(h))
  {
    var f := NO_FAILURES;
    LinkedNext(h, 0);
    var test := h.mem[h.free[0]].next;
    ghost var k := 1;
    while test != NULL && h.mem[test].next != NULL
      invariant 1 <= k <= |h.free|
      invariant k < |h.free| ==> test == h.free[k]
      invariant k == |h.free| ==> test == NULL
      invariant f == Scan(h, k)
      decreases |h.free| - k
    {
      LinkedNext(h, k);
      f := CheckBlock(h.mem, test, f);
      test := h.mem[test].next;
      k := k + 1;
    }
    if k < |h.free| {
      LinkedNext(h, k);
    }
    ScanComplete(h, k);
    f := f.(sentinel := h.mem[h.free[0]].size != 0);
    error := ErrorCode(f);
  }
}

/** The checker's contract: what a zero error code means, and that valid heaps get one. */
module CheckerProofs {
  import opened Memory
  import opened Blocks
  import opened Heaps
  import opened Allocator
  import opened AllocatorProofs
  import opened Release
  import opened ReleaseProofs
  import opened Checker

  /** Each bit of the error code reports exactly its flag. */
  lemma ErrorCodeRoundTrip(f: Failures)
    ensures DecodeErrorCode(ErrorCode(f)) == f
  {
  }

  /**
    Addresses stay below 2^63, so every pointer difference the checker forms
    is exact in `ptrdiff_t`, and no block size overflows `size_t`.
   */
  const ADDRESS_LIMIT: nat := 0x8000_0000_0000_0000

  /**
    The structure a zero error code certifies: the sentinel has size 0, and every
    tested block is free and ends strictly before its successor starts.
   */
  ghost predicate CheckerClean(h: Heap)
    requires Linked(h) && |h.free| >= 1
  {
    && h.mem[h.free[0]].size == 0
    && forall k :: Tested(h, k) ==> !h.mem[h.free[k]].alloc && End(h.mem, h.free[k]) < h.free[k + 1]
  }

  /** One tested block passes all four tests exactly when it is free and ends before its successor. */
  lemma BlockPasses(h: Heap, k: int)
    requires Linked(h) && Bounded(h) && h.brk < ADDRESS_LIMIT && Tested(h, k)
    ensures var a := h.free[k];
            (!FailsAllocated(h.mem, a) && !FailsOrder(h.mem, a) && !FailsOverlap(h.mem, a) && !FailsTouch(h.mem, a))
            <==> (!h.mem[a].alloc && End(h.mem, a) < h.free[k + 1])
  {
    var a := h.free[k];
    LinkedNext(h, k);
    var n := h.free[k + 1];
    assert End(h.mem, a) <= h.brk && End(h.mem, n) <= h.brk;
    assert AsSize(H + h.mem[a].size) == H + h.mem[a].size;
    if Gap(h.mem, a) > 0 {
      assert AsSize(Gap(h.mem, a)) == Gap(h.mem, a);
    }
  }

  /** The checker reports no failure exactly when the heap is clean in the sense above. */
  lemma PassesIffClean(h: Heap)
    requires Linked(h) && |h.free| >= 1 && Bounded(h) && h.brk < ADDRESS_LIMIT
    ensures Expected(h) == NO_FAILURES <==> CheckerClean(h)
  {
    if Expected(h) == NO_FAILURES {
      forall k | Tested(h, k)
        ensures !h.mem[h.free[k]].alloc && End(h.mem, h.free[k]) < h.free[k + 1]
      {
        BlockPasses(h, k);
      }
    }
    if CheckerClean(h) {
      forall k | Tested(h, k)
        ensures var a := h.free[k];
                !FailsAllocated(h.mem, a) && !FailsOrder(h.mem, a) && !FailsOverlap(h.mem, a) && !FailsTouch(h.mem, a)
      {
        BlockPasses(h, k);
      }
    }
  }

  /** A valid heap is clean. */
  lemma ValidClean(h: Heap)
    requires Valid(h)
    ensures CheckerClean(h)
  {
    forall k | Tested(h, k)
      ensures !h.mem[h.free[k]].alloc && End(h.mem, h.free[k]) < h.free[k + 1]
    {
      assert h.free[k] in h.free;
    }
  }

  /** On a valid heap the checker returns 0. */
  lemma ValidPasses(h: Heap)
    requires Valid(h) && h.brk < ADDRESS_LIMIT
    ensures Expected(h) == NO_FAILURES
    ensures ErrorCode(Expected(h)) == 0
  {
    ValidClean(h);
    PassesIffClean(h);
  }

  /**
    The checker's tests are local, one block and its successor, but a clean
    heap is ordered globally: every tested block ends before any later block
    on the list starts.
   */
  lemma {:induction false} CleanOrdered(h: Heap, i: int, j: int)
    requires Linked(h) && |h.free| >= 1 && CheckerClean(h)
    requires 1 <= i < j < |h.free|
    ensures End(h.mem, h.free[i]) < h.free[j]
    decreases j - i
  {
    assert Tested(h, i);
    if j > i + 1 {
      CleanOrdered(h, i + 1, j);
    }
  }

  /** So the part of a clean list after the sentinel is in ascending address order. */
  lemma CleanAscending(h: Heap)
    requires Linked(h) && |h.free| >= 1 && CheckerClean(h)
    ensures Ascending(h.free[1..])
  {
    var s := h.free[1..];
    forall i, j | 0 <= i < j < |s|
      ensures s[i] < s[j]
    {
      CleanOrdered(h, i + 1, j + 1);
    }
  }

  /** umalloc on a valid heap leaves a heap the checker passes. */
  lemma UMallocPassesChecker(h: Heap, size: nat)
    requires Valid(h) && UMalloc(h, size).heap.brk < ADDRESS_LIMIT
    ensures Valid(UMalloc(h, size).heap)
    ensures Expected(UMalloc(h, size).heap) == NO_FAILURES
  {
    UMallocValid(h, size);
    ValidPasses(UMalloc(h, size).heap);
  }

  /** ufree on a valid heap leaves a heap the checker passes. */
  lemma UFreePassesChecker(h: Heap, p: Addr)
    requires Valid(h) && p >= H && GetBlock(p) in h.mem && GetBlock(p) != h.free[0]
    requires h.brk < ADDRESS_LIMIT
    ensures Valid(UFree(h, p))
    ensures Expected(UFree(h, p)) == NO_FAILURES
  {
    UFreeValid(h, p);
    ValidPasses(UFree(h, p));
  }
}
