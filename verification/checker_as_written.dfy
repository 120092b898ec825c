/**
  verify_memory.c exactly as it stands. Its loop never executes
  `test = test->next`, so the loop condition never changes: either the loop
  is skipped or it runs forever. The one advance, `test = test->next`, sits
  after the loop, where `test` may be NULL. And fail_5 is raised when the
  sentinel's size IS 0, which is what a consistent heap has.
 */
module CheckerAsWritten {
  import opened Memory
  import opened Blocks
  import opened Heaps
  import opened Allocator
  import opened AllocatorProofs
  import opened Checker
  import opened CheckerProofs

  /** How the loop ends: it exits with its current `test` and flags, or is still running when the fuel runs out. */
  datatype LoopEnd = Exited(test: Addr, f: Failures) | StillRunning

  /** How a call of verify_memory ends. */
  datatype Outcome = Returns(code: nat) | NullDereference | StillLooping

  /** The loop condition `test && test->next`. */
  predicate LoopGuard(mem: map<Addr, Header>, test: Addr)
    requires test == NULL || test in mem
  {
    test != NULL && mem[test].next != NULL
  }

  /**
    The loop of lines 14-23, run for at most `fuel` iterations: the body folds
    the four tests into the flags and leaves `test` where it is.
   */
  function LoopAsWritten(mem: map<Addr, Header>, test: Addr, f: Failures, fuel: nat): (r: LoopEnd)
    requires test == NULL || test in mem
    ensures r.Exited? ==> r.test == test
    decreases fuel
  {
    if !LoopGuard(mem, test) then Exited(test, f)
    else if fuel == 0 then StillRunning
    else LoopAsWritten(mem, test, CheckBlock(mem, test, f), fuel - 1)
  }

  /** Once the guard holds it holds for ever, so no amount of fuel lets the loop exit. */
  lemma {:induction false} LoopSpins(mem: map<Addr, Header>, test: Addr, f: Failures, fuel: nat)
    requires test == NULL || test in mem
    ensures LoopAsWritten(mem, test, f, fuel).Exited? <==> !LoopGuard(mem, test)
    decreases fuel
  {
    if LoopGuard(mem, test) && fuel > 0 {
      LoopSpins(mem, test, CheckBlock(mem, test, f), fuel - 1);
    }
  }

  /** The first node after the sentinel, or NULL: the loop's starting `test`. */
  lemma FirstTested(h: Heap)
    requires Linked(h) && |h.free| >= 1
    ensures h.mem[h.free[0]].next == NULL || h.mem[h.free[0]].next in h.mem
    ensures h.mem[h.free[0]].next == Succ(h.free, 0)
  {
    LinkedNext(h, 0);
  }

  /**
    verify_memory as written, given `fuel` loop iterations: line 12 reads the
    sentinel's link, the loop runs, fail_5 is raised when the sentinel's size
    is 0, line 26 dereferences `test`, and the flags become the error code.
   */
  function VerifyMemoryAsWritten(h: Heap, fuel: nat): (r: Outcome)
    requires Linked(h) && |h.free| >= 1
    ensures r.Returns? ==> r.code < 32
  {
    FirstTested(h);
    var first := h.mem[h.free[0]].next;
    match LoopAsWritten(h.mem, first, NO_FAILURES, fuel)
    case StillRunning => StillLooping
    case Exited(test, f) =>
      if test == NULL then NullDereference
      else Returns(ErrorCode(f.(sentinel := h.mem[h.free[0]].size == 0)))
  }

  /**
    What the code does, by the length of the free list: with the sentinel
    alone it dereferences NULL at line 26; with one free block it returns,
    having tested nothing but the sentinel; with two or more it never returns.
   */
  lemma AsWrittenOutcomes(h: Heap, fuel: nat)
    requires Linked(h) && |h.free| >= 1
    ensures |h.free| == 1 ==> VerifyMemoryAsWritten(h, fuel) == NullDereference
    ensures |h.free| == 2 ==> VerifyMemoryAsWritten(h, fuel) == Returns(if h.mem[h.free[0]].size == 0 then 16 else 0)
    ensures |h.free| >= 3 ==> VerifyMemoryAsWritten(h, fuel) == StillLooping
  {
    FirstTested(h);
    var first := h.mem[h.free[0]].next;
    LoopSpins(h.mem, first, NO_FAILURES, fuel);
    if |h.free| >= 2 {
      LinkedNext(h, 1);
    }
  }

  /** With two or more free blocks after the sentinel the checker never returns, however long it runs. */
  lemma AsWrittenSpins(h: Heap)
    requires Linked(h) && |h.free| >= 3
    ensures forall fuel: nat :: VerifyMemoryAsWritten(h, fuel) == StillLooping
  {
    forall fuel: nat
      ensures VerifyMemoryAsWritten(h, fuel) == StillLooping
    {
      AsWrittenOutcomes(h, fuel);
    }
  }

  /** Right after uinit the free list is the sentinel alone, and the checker dereferences NULL. */
  lemma AsWrittenNullDereference(base: Addr, fuel: nat)
    requires base != NULL && base % ALIGNMENT == 0
    ensures Valid(UInit(EmptyHeap(base)))
    ensures VerifyMemoryAsWritten(UInit(EmptyHeap(base)), fuel) == NullDereference
  {
    UInitValid(base);
    AsWrittenOutcomes(UInit(EmptyHeap(base)), fuel);
  }

  /**
    The one case where the code returns: a valid heap with a single free
    block. It reports 16, a changed sentinel, where the corrected checker
    reports 0.
   */
  lemma AsWrittenReportsSentinel(h: Heap, fuel: nat)
    requires Valid(h) && |h.free| == 2 && h.brk < ADDRESS_LIMIT
    ensures VerifyMemoryAsWritten(h, fuel) == Returns(16)
    ensures ErrorCode(Expected(h)) == 0
  {
    AsWrittenOutcomes(h, fuel);
    ValidPasses(h);
  }

  /** So on no valid heap does the code as written return 0. */
  lemma AsWrittenNeverPasses(h: Heap, fuel: nat)
    requires Valid(h)
    ensures VerifyMemoryAsWritten(h, fuel) != Returns(0)
  {
    AsWrittenOutcomes(h, fuel);
  }
}
