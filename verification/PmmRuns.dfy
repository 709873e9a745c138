/** Whole runs of the frame allocator: any sequence of pmm_alloc and pmm_free calls. */
module PmmRuns {
  import opened Words
  import opened Pmm

  datatype Op = AllocOp | FreeOp(addr: u32)

  function Step(f: Frames, op: Op): (Frames, int) {
    match op
    case AllocOp => Alloc(f)
    case FreeOp(addr) => Free(f, addr)
  }

  ghost predicate Run(trace: seq<Frames>, ops: seq<Op>, results: seq<int>) {
    && |trace| == |ops| + 1 && |results| == |ops|
    && WellFormed(trace[0]) && trace[0].used == {}
    && forall i :: 0 <= i < |ops| ==> StepAt(trace, ops, results, i)
  }

  ghost predicate StepAt(trace: seq<Frames>, ops: seq<Op>, results: seq<int>, i: nat)
    requires |trace| == |ops| + 1 && |results| == |ops| && i < |ops|
  {
    (trace[i + 1], results[i]) == Step(trace[i], ops[i])
  }

  lemma {:induction false} RunWellFormed(trace: seq<Frames>, ops: seq<Op>, results: seq<int>, i: nat)
    requires Run(trace, ops, results) && i < |trace|
    ensures WellFormed(trace[i]) && trace[i].total == trace[0].total
  {
    if i == 0 {
    } else {
      RunWellFormed(trace, ops, results, i - 1);
      assert StepAt(trace, ops, results, i - 1);
    }
  }

  /** Step `k` is a pmm_free of `addr` that succeeds. */
  predicate Frees(ops: seq<Op>, results: seq<int>, k: int, addr: int) {
    0 <= k < |ops| == |results| && ops[k].FreeOp? && ops[k].addr == addr && results[k] == 0
  }

  /** A frame stays allocated until a successful pmm_free of its address. */
  lemma {:induction false} StaysAllocated(trace: seq<Frames>, ops: seq<Op>, results: seq<int>, i: nat, j: nat, frame: nat)
    requires Run(trace, ops, results) && i <= j < |trace| && frame in trace[i].used
    requires forall k :: i <= k < j ==> !Frees(ops, results, k, frame * PAGE_SIZE)
    ensures frame in trace[j].used
    decreases j
  {
    if i == j {
    } else {
      StaysAllocated(trace, ops, results, i, j - 1, frame);
      assert StepAt(trace, ops, results, j - 1);
      assert !Frees(ops, results, j - 1, frame * PAGE_SIZE);
    }
  }

  /** No frame is handed out twice without a successful free of it in between. */
  lemma RunNoReissue(trace: seq<Frames>, ops: seq<Op>, results: seq<int>, i: nat, j: nat)
    requires Run(trace, ops, results) && i < j < |ops|
    requires ops[i] == AllocOp && ops[j] == AllocOp && !Exhausted(trace[i]) && !Exhausted(trace[j])
    requires results[i] == results[j]
    ensures exists k :: i < k < j && Frees(ops, results, k, results[i])
  {
    assert StepAt(trace, ops, results, i) && StepAt(trace, ops, results, j);
    var frame := LeastFree(trace[i], 0);
    if forall k :: i < k < j ==> !Frees(ops, results, k, frame * PAGE_SIZE) {
      StaysAllocated(trace, ops, results, i + 1, j, frame);
    }
  }

  /** What pmm_alloc returns, for every state: the least free frame, whose bytes fit below
      2^32 and whose index is never the sentinel; and the result 0 means either that frame 0
      was handed out or that there was nothing to hand out. */
  lemma AllocExact(f: Frames)
    requires WellFormed(f)
    ensures var (f', addr) := Alloc(f);
      && (Exhausted(f) ==> f' == f && addr == 0)
      && (!Exhausted(f) ==>
            && addr % 4096 == 0 && addr + 4096 <= U32_LIMIT && addr / 4096 < NO_PAGE && addr / 4096 < f.total
            && addr / 4096 !in f.used && (forall k: nat :: k < addr / 4096 ==> k in f.used)
            && f' == f.(used := f.used + {addr / 4096}))
      && (addr == 0 <==> Exhausted(f) || 0 !in f.used)
  {
  }

  /** pmm_free undoes pmm_alloc. */
  lemma FreeUndoesAlloc(f: Frames)
    requires WellFormed(f) && !Exhausted(f)
    ensures var (f', addr) := Alloc(f); addr < U32_LIMIT && Free(f', addr) == (f, 0)
  {
  }

  /** A failing pmm_free is one of an unaligned address, of an address past the end, or of a
      frame that is not allocated; a succeeding one frees exactly its frame. */
  lemma FreeExact(f: Frames, addr: u32)
    requires WellFormed(f)
    ensures var (f', status) := Free(f, addr);
      && (status == 0 <==> exists frame :: frame in f.used && addr == frame * 4096)
      && (status != 0 ==> status == -1 && f' == f)
      && (status == 0 ==> f'.total == f.total && forall k :: k in f'.used <==> k in f.used && addr != k * PAGE_SIZE)
  {
  }
}
