/** Runs of process creation across the process table, the frame allocator and the heap. */
module ProcessRuns {
  import opened Words
  import opened Pmm
  import opened PmmRuns
  import opened Heap
  import opened HeapBlocks
  import opened Process

  const HEAP_BASE: u32 := 0xC010_0000
  const HEAP_BYTES: u32 := 0x80_0000
  const BITMAP_BASE: u32 := 0xC020_0000
  const BLOCK_BYTES := 88

  // ---------------------------------------------------------------- the context

  /** Fields at least a word apart read back as written. */
  lemma {:induction false} FieldReads(m: seq<byte>, o: nat, fields: seq<(nat, u32)>, n: nat, i: nat)
    requires o + CONTEXT_SIZE <= |m| && i < n <= |fields| && FieldsFit(fields)
    requires forall a, b :: 0 <= a < b < |fields| ==> fields[a].0 + 4 <= fields[b].0 || fields[b].0 + 4 <= fields[a].0
    ensures fields[i].0 + 4 <= CONTEXT_SIZE
    ensures ReadU32(WriteFields(m, o, fields, n), o + fields[i].0) == fields[i].1
  {
    assert fields[i].0 + 4 <= CONTEXT_SIZE && fields[n - 1].0 + 4 <= CONTEXT_SIZE;
    if i == n - 1 {
      ReadBack(WriteFields(m, o, fields, n - 1), o + fields[i].0, fields[i].1);
    } else {
      FieldReads(m, o, fields, n - 1, i);
    }
  }

  /** A new context holds the entry point, the kernel selectors, the stack top and the flags. */
  lemma ContextReads(m: seq<byte>, o: nat, entry: u32, esp: u32)
    requires o + CONTEXT_SIZE <= |m|
    ensures var r := WriteContext(m, o, entry, esp);
      && ReadU32(r, o + 56) == entry && ReadU32(r, o + 60) == 0x08 && ReadU32(r, o + 28) == esp
      && ReadU32(r, o + 64) == 0x202 && ReadU32(r, o + 72) == 0x10
      && forall s :: 0 <= s < 4 ==> ReadU32(r, o + 4 * s) == 0x10
  {
    var fields := ContextFields(entry, esp);
    forall i | 0 <= i < 9
      ensures fields[i].0 + 4 <= CONTEXT_SIZE && ReadU32(WriteContext(m, o, entry, esp), o + fields[i].0) == fields[i].1
    {
      FieldReads(m, o, fields, 9, i);
    }
    assert fields[0].0 == 56 && fields[1].0 == 60 && fields[2].0 == 12 && fields[3].0 == 8 && fields[4].0 == 4;
    assert fields[5].0 == 0 && fields[6].0 == 72 && fields[7].0 == 28 && fields[8].0 == 64;
  }

  // ---------------------------------------------------------------- the invariant

  /** Process creation has filled the first `n` blocks of the heap, all alike and all live. */
  predicate Contexts(bs: seq<Block>, n: nat) {
    |bs| == n && forall i :: 0 <= i < n ==> bs[i].size == BLOCK_BYTES && bs[i].live
  }

  /** The process in slot `i`: ready with a full slice, its own stack, and its own context. */
  predicate Filled(pcb: Pcb, i: nat, parent: u32, heapStart: u32)
    requires 1 <= i < MAX_PROCESSES
  {
    && pcb.pid == i && pcb.parentPid == parent && pcb.state == Ready
    && pcb.slice == TIME_SLICE && pcb.runtime == 0
    && pcb.kernelStack == StackOf(i)
    && pcb.context == heapStart + ContextOffset(i)
  }

  function ContextOffset(i: nat): nat
    requires i >= 1
  {
    BLOCK_BYTES * (i - 1) + HEADER_SIZE
  }

  /** The saved context of slot `i` runs kernel code on the slot's own stack. */
  predicate ContextOk(m: seq<byte>, i: nat)
    requires 1 <= i < MAX_PROCESSES
  {
    && ContextOffset(i) + CONTEXT_SIZE <= |m|
    && ReadU32(m, ContextOffset(i) + 60) == KERNEL_CODE && ReadU32(m, ContextOffset(i) + 64) == EFLAGS
    && ReadU32(m, ContextOffset(i) + 28) == StackTop(i)
  }

  /** Slot `i` belongs to a created process with its own page directory, stack and context. */
  predicate SlotOk(k: Kernel, i: nat)
    requires Shaped(k.procs) && 1 <= i < MAX_PROCESSES
  {
    var pcb := k.procs.table[i];
    && Filled(pcb, i, k.procs.currentPid, k.heap.start)
    && pcb.pageDir != 0 && pcb.pageDir % PAGE_SIZE == 0 && pcb.pageDir / PAGE_SIZE in k.frames.used
    && ContextOk(k.heap.mem, i)
  }

  predicate DirsDiffer(k: Kernel, i: nat, j: nat)
    requires |k.procs.table| == MAX_PROCESSES && i < MAX_PROCESSES && j < MAX_PROCESSES
  {
    k.procs.table[i].pageDir != k.procs.table[j].pageDir
  }

  ghost predicate Inv(k: Kernel, bs: seq<Block>) {
    && Shaped(k.procs) && WellFormed(k.frames)
    && Configured(k.heap) && k.heap.size >= BLOCK_BYTES * (MAX_PROCESSES - 1)
    && Tiles(k.heap.mem, k.heap.used, bs) && Contexts(bs, k.procs.nextPid - 1)
    && (forall i :: 1 <= i < k.procs.nextPid ==> SlotOk(k, i))
    && (forall i, j :: 1 <= i < j < k.procs.nextPid ==> DirsDiffer(k, i, j))
  }

  lemma {:induction false} ContextsUse(bs: seq<Block>, n: nat, i: nat)
    requires Chained(bs) && Contexts(bs, n) && i <= n
    ensures Boundary(bs, i) == BLOCK_BYTES * i
  {
    if i == 0 {
    } else {
      assert Link(bs, i - 1);
      ContextsUse(bs, n, i - 1);
    }
  }

  /** With all blocks live first fit finds nothing, and there is room to append. */
  lemma NextBlock(h: HeapState, bs: seq<Block>, n: nat)
    requires Configured(h) && Tiles(h.mem, h.used, bs) && Contexts(bs, n) && n < MAX_PROCESSES - 1
    requires h.size >= BLOCK_BYTES * (MAX_PROCESSES - 1)
    ensures h.used == BLOCK_BYTES * n
    ensures Allocate(bs, h.size, CONTEXT_SIZE) == (bs + [Block(h.used, BLOCK_BYTES, true)], Some(n))
  {
    ContextsUse(bs, n, n);
  }

  predicate SameBelow(m: seq<byte>, m': seq<byte>, n: nat) {
    |m'| == |m| && forall k :: 0 <= k < n && k < |m| ==> m'[k] == m[k]
  }

  /** Contexts below `n` do not depend on the bytes from `n` on. */
  lemma ContextKept(m: seq<byte>, m': seq<byte>, n: nat, i: nat)
    requires 1 <= i < MAX_PROCESSES && ContextOk(m, i) && SameBelow(m, m', n) && ContextOffset(i) + CONTEXT_SIZE <= n
    ensures ContextOk(m', i)
  {
  }

  /** kmalloc of the next context appends a block. */
  lemma NextKmalloc(h: HeapState, bs: seq<Block>, n: nat)
    requires Configured(h) && Tiles(h.mem, h.used, bs) && Contexts(bs, n) && n < MAX_PROCESSES - 1
    requires h.size >= BLOCK_BYTES * (MAX_PROCESSES - 1)
    ensures Tiled(h) && h.used == BLOCK_BYTES * n && Walkable(h.mem, h.used, 0)
    ensures var (h', context) := Kmalloc(h, CONTEXT_SIZE);
      && context == h.start + h.used + HEADER_SIZE
      && h'.start == h.start && h'.size == h.size && Configured(h')
      && Tiles(h'.mem, h'.used, bs + [Block(h.used, BLOCK_BYTES, true)])
      && SameBelow(h.mem, h'.mem, h.used)
  {
    NextBlock(h, bs, n);
    KmallocRefines(h, bs, CONTEXT_SIZE);
  }

  /** The next context is a block of its own, written after kmalloc. */
  lemma NextContextWritten(h: HeapState, bs: seq<Block>, n: nat, entry: u32, esp: u32, o: nat)
    requires Configured(h) && Tiles(h.mem, h.used, bs) && Contexts(bs, n) && n < MAX_PROCESSES - 1
    requires h.size >= BLOCK_BYTES * (MAX_PROCESSES - 1) && o == BLOCK_BYTES * n + HEADER_SIZE
    ensures Tiled(h) && Walkable(h.mem, h.used, 0) && h.used + HEADER_SIZE == o
    ensures var h1 := Kmalloc(h, CONTEXT_SIZE).0;
      && o + CONTEXT_SIZE <= |h1.mem|
      && NewContext(h, entry, esp) == (h1.(mem := WriteContext(h1.mem, o, entry, esp)), h.start + o)
  {
    NextKmalloc(h, bs, n);
    KmallocInside(h, CONTEXT_SIZE);
    assert Kmalloc(h, CONTEXT_SIZE).1 == h.start + o;
  }

  /** With all blocks live the next context is appended, and there is always room for it. */
  lemma NextContext(h: HeapState, bs: seq<Block>, n: nat, entry: u32, esp: u32)
    requires Configured(h) && Tiles(h.mem, h.used, bs) && Contexts(bs, n) && n < MAX_PROCESSES - 1
    requires h.size >= BLOCK_BYTES * (MAX_PROCESSES - 1)
    ensures Tiled(h) && h.used == BLOCK_BYTES * n
    ensures var (h', context) := NewContext(h, entry, esp);
      && context == h.start + BLOCK_BYTES * n + HEADER_SIZE
      && h'.start == h.start && h'.size == h.size && Configured(h')
      && Tiles(h'.mem, h'.used, bs + [Block(h.used, BLOCK_BYTES, true)])
  {
    NextKmalloc(h, bs, n);
    var b := Block(h.used, BLOCK_BYTES, true);
    NextContextWritten(h, bs, n, entry, esp, b.Payload());
    assert (bs + [b])[n] == b;
    WriteKeepsTiling(Kmalloc(h, CONTEXT_SIZE).0, bs + [b], n, entry, esp);
  }

  /** Writing the next context sets it up and keeps the bytes before it. */
  lemma WriteNextContext(m: seq<byte>, i: nat, entry: u32)
    requires 1 <= i < MAX_PROCESSES && ContextOffset(i) + CONTEXT_SIZE <= |m|
    ensures var m' := WriteContext(m, ContextOffset(i), entry, StackTop(i));
      SameBelow(m, m', ContextOffset(i)) && ContextOk(m', i)
  {
    ContextReads(m, ContextOffset(i), entry, StackTop(i));
    ContextStaysInside(m, ContextOffset(i), entry, StackTop(i));
  }

  lemma SameBelowChains(m: seq<byte>, m1: seq<byte>, m2: seq<byte>, n: nat, n1: nat)
    requires SameBelow(m, m1, n) && SameBelow(m1, m2, n1) && n <= n1
    ensures SameBelow(m, m2, n)
  {
  }

  /** The next context holds the right values, and the bytes before it stay as they were. */
  lemma NextContextBytes(h: HeapState, bs: seq<Block>, i: nat, entry: u32)
    requires Configured(h) && Tiles(h.mem, h.used, bs) && 1 <= i < MAX_PROCESSES && Contexts(bs, i - 1)
    requires h.size >= BLOCK_BYTES * (MAX_PROCESSES - 1)
    ensures Tiled(h)
    ensures var h' := NewContext(h, entry, StackTop(i)).0;
      SameBelow(h.mem, h'.mem, BLOCK_BYTES * (i - 1)) && ContextOk(h'.mem, i)
  {
    NextKmalloc(h, bs, i - 1);
    NextContextWritten(h, bs, i - 1, entry, StackTop(i), ContextOffset(i));
    var m1 := Kmalloc(h, CONTEXT_SIZE).0.mem;
    WriteNextContext(m1, i, entry);
    SameBelowChains(h.mem, m1, WriteContext(m1, ContextOffset(i), entry, StackTop(i)),
                    BLOCK_BYTES * (i - 1), ContextOffset(i));
  }

  lemma WriteKeepsTiling(h: HeapState, bs: seq<Block>, n: nat, entry: u32, esp: u32)
    requires Configured(h) && Tiles(h.mem, h.used, bs) && n < |bs| && bs[n].size == BLOCK_BYTES
    requires bs[n].Payload() + CONTEXT_SIZE <= |h.mem|
    ensures Tiles(WriteContext(h.mem, bs[n].Payload(), entry, esp), h.used, bs)
  {
    ContextStaysInside(h.mem, bs[n].Payload(), entry, esp);
    TilesPayload(h.mem, WriteContext(h.mem, bs[n].Payload(), entry, esp), h.used, bs, n);
  }

  /** Two pmm_alloc calls in a row both give a non-zero address exactly when frame 0 is taken
      already and two frames are free. */
  lemma TwoFramesExact(f: Frames)
    requires WellFormed(f)
    ensures var (f1, a) := Alloc(f);
      a != 0 && Alloc(f1).1 != 0 <==> 0 in f.used && |f.used| + 2 <= f.total
  {
    var f1 := Alloc(f).0;
    AllocExact(f);
    AllocExact(f1);
    CountBound(f);
    CountBound(f1);
  }

  /** A process slot, and memory for a process. */
  predicate CanCreate(k: Kernel) {
    k.procs.nextPid < MAX_PROCESSES && 0 in k.frames.used && |k.frames.used| + 2 <= k.frames.total
  }

  /** proc_create succeeds exactly when a slot and two frames are left and frame 0 is taken; it
      then returns the next process number, and -1 otherwise. */
  lemma CreateFailsExactly(k: Kernel, bs: seq<Block>, entry: u32, priority: u32)
    requires Inv(k, bs)
    ensures Usable(k)
    ensures CreateProcess(k, entry, priority).1 == if CanCreate(k) then k.procs.nextPid else -1
  {
    TwoFramesExact(k.frames);
    if k.procs.nextPid < MAX_PROCESSES {
      NextContext(k.heap, bs, k.procs.nextPid - 1, entry, StackTop(k.procs.nextPid));
    }
  }

  /** The two frames of a creation are fresh and different. */
  lemma TwoFrames(f: Frames)
    requires WellFormed(f)
    ensures var (f1, a) := Alloc(f); var (f2, b) := Alloc(f1);
      && WellFormed(f1) && WellFormed(f2) && f2.total == f.total && f.used <= f1.used <= f2.used
      && (a != 0 && b != 0 ==> b % PAGE_SIZE == 0 && b / PAGE_SIZE in f2.used && b / PAGE_SIZE !in f.used)
  {
  }

  ghost function BlocksAfter(k: Kernel, bs: seq<Block>, entry: u32, priority: u32): seq<Block>
    requires Usable(k)
  {
    if CreateProcess(k, entry, priority).1 == -1 then bs else bs + [Block(k.heap.used, BLOCK_BYTES, true)]
  }

  /** Taking frames and rewriting slots at or above the next free one keeps the invariant. */
  lemma FailureKeepsInv(k: Kernel, bs: seq<Block>, p: Procs, f: Frames)
    requires Inv(k, bs) && Shaped(p) && p.nextPid == k.procs.nextPid && p.currentPid == k.procs.currentPid
    requires forall i :: 1 <= i < p.nextPid ==> p.table[i] == k.procs.table[i]
    requires WellFormed(f) && k.frames.used <= f.used
    ensures Inv(Kernel(p, f, k.heap), bs)
  {
    var k' := Kernel(p, f, k.heap);
    forall i | 1 <= i < p.nextPid ensures SlotOk(k', i) { assert SlotOk(k, i); }
    forall i, j | 1 <= i < j < p.nextPid ensures DirsDiffer(k', i, j) { assert DirsDiffer(k, i, j); }
  }

  /** A successful creation adds one good slot, whose directory is a frame nobody held. */
  lemma SuccessKeepsSlots(k: Kernel, bs: seq<Block>, k': Kernel, pd: u32)
    requires Inv(k, bs) && Shaped(k'.procs) && k'.procs.nextPid == k.procs.nextPid + 1 && SlotOk(k', k.procs.nextPid)
    requires forall i :: 1 <= i < k.procs.nextPid ==> k'.procs.table[i] == k.procs.table[i]
    requires k'.procs.table[k.procs.nextPid].pageDir == pd && pd / PAGE_SIZE !in k.frames.used
    requires k.frames.used <= k'.frames.used && k'.heap.start == k.heap.start
    requires k'.procs.currentPid == k.procs.currentPid
    requires SameBelow(k.heap.mem, k'.heap.mem, BLOCK_BYTES * (k.procs.nextPid - 1))
    ensures forall i :: 1 <= i < k'.procs.nextPid ==> SlotOk(k', i)
    ensures forall i, j :: 1 <= i < j < k'.procs.nextPid ==> DirsDiffer(k', i, j)
  {
    forall i | 1 <= i < k.procs.nextPid ensures SlotOk(k', i) {
      assert SlotOk(k, i);
      ContextKept(k.heap.mem, k'.heap.mem, BLOCK_BYTES * (k.procs.nextPid - 1), i);
    }
    forall i, j | 1 <= i < j < k'.procs.nextPid ensures DirsDiffer(k', i, j) {
      assert SlotOk(k, i);
      if j < k.procs.nextPid { assert DirsDiffer(k, i, j); }
    }
  }

  /** `p'` is the table `p` with one more process. */
  predicate TableGrown(p: Procs, p': Procs, pd: u32, heapStart: u32)
    requires Shaped(p) && p.nextPid < MAX_PROCESSES
  {
    && Shaped(p') && p'.nextPid == p.nextPid + 1 && p'.currentPid == p.currentPid
    && (forall i :: 1 <= i < p.nextPid ==> p'.table[i] == p.table[i])
    && Filled(p'.table[p.nextPid], p.nextPid, p.currentPid, heapStart) && p'.table[p.nextPid].pageDir == pd
  }

  /** `h'` is the heap `h` with the context of process `n` appended. */
  ghost predicate HeapGrown(h: HeapState, bs: seq<Block>, h': HeapState, n: nat)
    requires 1 <= n < MAX_PROCESSES
  {
    && h'.start == h.start && h'.size == h.size && Configured(h')
    && Tiles(h'.mem, h'.used, bs + [Block(h.used, BLOCK_BYTES, true)])
    && SameBelow(h.mem, h'.mem, BLOCK_BYTES * (n - 1)) && ContextOk(h'.mem, n)
  }

  lemma CompleteGrows(p: Procs, priority: u32, pd: u32, heapStart: u32, context: u32)
    requires Shaped(p) && p.nextPid < MAX_PROCESSES && context == heapStart + ContextOffset(p.nextPid)
    ensures var (p', status) := Complete(Claim(p, priority), pd, context);
      status == p.nextPid && TableGrown(p, p', pd, heapStart) && p'.table[p.nextPid].priority == priority
  {
  }

  lemma NewContextGrows(h: HeapState, bs: seq<Block>, n: nat, entry: u32)
    requires Configured(h) && Tiles(h.mem, h.used, bs) && 1 <= n < MAX_PROCESSES && Contexts(bs, n - 1)
    requires h.size >= BLOCK_BYTES * (MAX_PROCESSES - 1)
    ensures Tiled(h)
    ensures var (h', context) := NewContext(h, entry, StackTop(n));
      context == h.start + ContextOffset(n) && HeapGrown(h, bs, h', n)
  {
    NextContext(h, bs, n - 1, entry, StackTop(n));
    NextContextBytes(h, bs, n, entry);
  }

  lemma FillParts(p: Procs, h: HeapState, entry: u32, priority: u32, pd: u32)
    requires Shaped(p) && p.nextPid < MAX_PROCESSES && Tiled(h)
    ensures var (h', context) := NewContext(h, entry, StackTop(p.nextPid));
      var (p', status) := Complete(Claim(p, priority), pd, context);
      Fill(Claim(p, priority), h, entry, pd) == (p', h', status)
  {
  }

  /** A creation with a fresh frame for the page directory keeps the invariant. */
  lemma GrownKeepsInv(k: Kernel, bs: seq<Block>, k': Kernel, pd: u32)
    requires Inv(k, bs) && k.procs.nextPid < MAX_PROCESSES
    requires TableGrown(k.procs, k'.procs, pd, k.heap.start) && HeapGrown(k.heap, bs, k'.heap, k.procs.nextPid)
    requires WellFormed(k'.frames) && k.frames.used <= k'.frames.used
    requires pd != 0 && pd % PAGE_SIZE == 0 && pd / PAGE_SIZE in k'.frames.used && pd / PAGE_SIZE !in k.frames.used
    ensures Inv(k', bs + [Block(k.heap.used, BLOCK_BYTES, true)])
  {
    assert SlotOk(k', k.procs.nextPid);
    SuccessKeepsSlots(k, bs, k', pd);
    assert Contexts(bs + [Block(k.heap.used, BLOCK_BYTES, true)], k'.procs.nextPid - 1);
  }

  /** The state after a creation that got its two frames. */
  ghost function Success(k: Kernel, entry: u32, priority: u32, pd: u32, f: Frames): Kernel
    requires Usable(k) && k.procs.nextPid < MAX_PROCESSES
  {
    var (p, h, status) := Fill(Claim(k.procs, priority), k.heap, entry, pd);
    Kernel(p, f, h)
  }

  lemma SuccessParts(k: Kernel, entry: u32, priority: u32, pd: u32, f: Frames, p: Procs, h: HeapState, context: u32)
    requires Usable(k) && k.procs.nextPid < MAX_PROCESSES
    requires h == NewContext(k.heap, entry, StackTop(k.procs.nextPid)).0
    requires context == NewContext(k.heap, entry, StackTop(k.procs.nextPid)).1
    requires p == Complete(Claim(k.procs, priority), pd, context).0
    ensures Success(k, entry, priority, pd, f) == Kernel(p, f, h)
  {
    FillParts(k.procs, k.heap, entry, priority, pd);
  }

  lemma SuccessKeepsInv(k: Kernel, bs: seq<Block>, entry: u32, priority: u32, pd: u32, f: Frames)
    requires Inv(k, bs) && Usable(k) && k.procs.nextPid < MAX_PROCESSES
    requires WellFormed(f) && k.frames.used <= f.used
    requires pd != 0 && pd % PAGE_SIZE == 0 && pd / PAGE_SIZE in f.used && pd / PAGE_SIZE !in k.frames.used
    ensures Inv(Success(k, entry, priority, pd, f), bs + [Block(k.heap.used, BLOCK_BYTES, true)])
    ensures Success(k, entry, priority, pd, f).heap.start == k.heap.start
  {
    var n := k.procs.nextPid;
    NewContextGrows(k.heap, bs, n, entry);
    var (h', context) := NewContext(k.heap, entry, StackTop(n));
    CompleteGrows(k.procs, priority, pd, k.heap.start, context);
    var p := Complete(Claim(k.procs, priority), pd, context).0;
    SuccessParts(k, entry, priority, pd, f, p, h', context);
    GrownKeepsInv(k, bs, Kernel(p, f, h'), pd);
  }

  lemma CreateKeepsInv(k: Kernel, bs: seq<Block>, entry: u32, priority: u32)
    requires Inv(k, bs)
    ensures Usable(k) && Inv(CreateProcess(k, entry, priority).0, BlocksAfter(k, bs, entry, priority))
    ensures CreateProcess(k, entry, priority).0.heap.start == k.heap.start
  {
    CreateFailsExactly(k, bs, entry, priority);
    if k.procs.nextPid < MAX_PROCESSES {
      TwoFrames(k.frames);
      var (f1, stackPhys) := Alloc(k.frames);
      var (f2, pdPhys) := Alloc(f1);
      if stackPhys == 0 || pdPhys == 0 {
        FailureKeepsInv(k, bs, Claim(k.procs, priority), f2);
      } else {
        SuccessKeepsInv(k, bs, entry, priority, pdPhys, f2);
        assert CreateProcess(k, entry, priority).0 == Success(k, entry, priority, pdPhys, f2);
      }
    }
  }

  // ---------------------------------------------------------------- what a creation makes

  /** `a` and `b` are the two least free frames. */
  predicate TwoLeast(f: Frames, a: nat, b: nat) {
    && a < b < f.total && a !in f.used && b !in f.used
    && forall k :: 0 <= k < b && k != a ==> k in f.used
  }

  lemma TwoLeastGranted(f: Frames)
    requires WellFormed(f) && 0 in f.used && |f.used| + 2 <= f.total
    ensures
      var (f1, a) := Alloc(f); var (f2, b) := Alloc(f1);
      && a % 4096 == 0 && b % 4096 == 0 && a != 0 && b != 0 && b < U32_LIMIT
      && TwoLeast(f, a / 4096, b / 4096) && f2 == f.(used := f.used + {a / 4096, b / 4096})
  {
    var f1 := Alloc(f).0;
    TwoFramesExact(f);
    AllocExact(f);
    AllocExact(f1);
    assert f.used + {Alloc(f).1 / 4096} + {Alloc(f1).1 / 4096} == f.used + {Alloc(f).1 / 4096, Alloc(f1).1 / 4096};
  }

  /** The process control block of process `n`, just created. */
  predicate NewPcb(pcb: Pcb, was: Pcb, n: nat, parent: u32, priority: u32, frame: nat, context: int) {
    && pcb.pid == n && pcb.parentPid == parent && pcb.state == Ready && pcb.priority == priority
    && pcb.slice == 10 && pcb.runtime == 0 && pcb.blockedOn == was.blockedOn
    && pcb.kernelStack == 0xC030_0000 + 4096 * n && pcb.pageDir == 4096 * frame && pcb.context == context
  }

  /** The nine words of the saved context at offset `o`. */
  predicate NewContextWords(m: seq<byte>, o: nat, entry: u32, n: nat) {
    && o + 76 <= |m|
    && ReadU32(m, o + 56) == entry && ReadU32(m, o + 60) == 0x08 && ReadU32(m, o + 64) == 0x202
    && ReadU32(m, o + 28) == 0xC030_0000 + 4096 * n + 4092 && ReadU32(m, o + 72) == 0x10
    && forall s :: 0 <= s < 4 ==> ReadU32(m, o + 4 * s) == 0x10
  }

  /** Where the saved context of process `n` lies in the heap. */
  function ContextAt(n: nat): int {
    88 * (n - 1) + 12
  }

  /** A creation leaves all slots but the next one alone, and all contexts so far. */
  predicate OthersKept(k: Kernel, k': Kernel) {
    && Shaped(k.procs) && Shaped(k'.procs)
    && k'.procs.current == k.procs.current && k'.procs.currentPid == k.procs.currentPid
    && k.procs.nextPid <= k'.procs.nextPid
    && (forall q :: 0 <= q < MAX_PROCESSES && q != k.procs.nextPid ==> k'.procs.table[q] == k.procs.table[q])
    && SameBelow(k.heap.mem, k'.heap.mem, BLOCK_BYTES * (k.procs.nextPid - 1))
  }

  /** `k'` is `k` with process `n` created: it has frame `b` as page directory. */
  predicate Created(k: Kernel, k': Kernel, n: nat, a: nat, b: nat, entry: u32, priority: u32)
    requires Shaped(k.procs) && 1 <= n < MAX_PROCESSES
  {
    && TwoLeast(k.frames, a, b) && k'.frames == k.frames.(used := k.frames.used + {a, b})
    && OthersKept(k, k') && k'.procs.nextPid == n + 1
    && NewPcb(k'.procs.table[n], k.procs.table[n], n, k.procs.currentPid, priority, b, k.heap.start + ContextAt(n))
    && NewContextWords(k'.heap.mem, ContextAt(n), entry, n)
  }

  /** The table's part of it. */
  lemma TableCreated(p: Procs, priority: u32, frame: nat, pd: u32, context: u32)
    requires Shaped(p) && p.nextPid < MAX_PROCESSES && pd == 4096 * frame && context != NULL
    ensures
      var (p', status) := Complete(Claim(p, priority), pd, context);
      && status == p.nextPid && Shaped(p') && p'.nextPid == p.nextPid + 1
      && p'.current == p.current && p'.currentPid == p.currentPid
      && (forall q :: 0 <= q < MAX_PROCESSES && q != p.nextPid ==> p'.table[q] == p.table[q])
      && NewPcb(p'.table[p.nextPid], p.table[p.nextPid], p.nextPid, p.currentPid, priority, frame, context)
  {
  }

  /** The heap's part. */
  lemma HeapCreated(h: HeapState, bs: seq<Block>, n: nat, entry: u32)
    requires Configured(h) && Tiles(h.mem, h.used, bs) && 1 <= n < MAX_PROCESSES && Contexts(bs, n - 1)
    requires h.size >= BLOCK_BYTES * (MAX_PROCESSES - 1)
    ensures Tiled(h)
    ensures
      var (h', context) := NewContext(h, entry, StackTop(n));
      && context == h.start + ContextAt(n) && context != NULL
      && SameBelow(h.mem, h'.mem, BLOCK_BYTES * (n - 1)) && NewContextWords(h'.mem, ContextAt(n), entry, n)
  {
    NewContextGrows(h, bs, n, entry);
    NewContextReads(h, bs, n, entry);
  }

  lemma CreateIsSuccess(k: Kernel, bs: seq<Block>, entry: u32, priority: u32, pd: u32, f: Frames)
    requires Inv(k, bs) && CanCreate(k) && (f, pd as nat) == Alloc(Alloc(k.frames).0)
    ensures CreateProcess(k, entry, priority) == (Success(k, entry, priority, pd, f), k.procs.nextPid)
  {
    CreateFailsExactly(k, bs, entry, priority);
    TwoLeastGranted(k.frames);
  }

  lemma CreatedParts(k: Kernel, p: Procs, h: HeapState, f: Frames, a: nat, b: nat, entry: u32, priority: u32)
    requires Shaped(k.procs) && k.procs.nextPid < MAX_PROCESSES
    requires TwoLeast(k.frames, a, b) && f == k.frames.(used := k.frames.used + {a, b})
    requires Shaped(p) && p.nextPid == k.procs.nextPid + 1 && p.current == k.procs.current && p.currentPid == k.procs.currentPid
    requires forall q :: 0 <= q < MAX_PROCESSES && q != k.procs.nextPid ==> p.table[q] == k.procs.table[q]
    requires NewPcb(p.table[k.procs.nextPid], k.procs.table[k.procs.nextPid], k.procs.nextPid, k.procs.currentPid, priority, b,
                    k.heap.start + ContextAt(k.procs.nextPid))
    requires SameBelow(k.heap.mem, h.mem, BLOCK_BYTES * (k.procs.nextPid - 1))
    requires NewContextWords(h.mem, ContextAt(k.procs.nextPid), entry, k.procs.nextPid)
    ensures Created(k, Kernel(p, f, h), k.procs.nextPid, a, b, entry, priority)
  {
  }

  lemma SuccessIsCreated(k: Kernel, bs: seq<Block>, entry: u32, priority: u32, a: nat, b: nat, pd: u32, f: Frames)
    requires Inv(k, bs) && Usable(k) && k.procs.nextPid < MAX_PROCESSES
    requires TwoLeast(k.frames, a, b) && f == k.frames.(used := k.frames.used + {a, b}) && pd == 4096 * b
    ensures Created(k, Success(k, entry, priority, pd, f), k.procs.nextPid, a, b, entry, priority)
  {
    HeapCreated(k.heap, bs, k.procs.nextPid, entry);
    var (h, context) := NewContext(k.heap, entry, StackTop(k.procs.nextPid));
    TableCreated(k.procs, priority, b, pd, context);
    var p := Complete(Claim(k.procs, priority), pd, context).0;
    SuccessParts(k, entry, priority, pd, f, p, h, context);
    CreatedParts(k, p, h, f, a, b, entry, priority);
  }

  /** proc_create when it can: the next slot gets the number, the priority, the second of the two
      least free frames as page directory, its stack, and a context that starts at the entry point. */
  lemma CreatedExactly(k: Kernel, bs: seq<Block>, entry: u32, priority: u32) returns (a: nat, b: nat)
    requires Inv(k, bs) && CanCreate(k)
    ensures CreateProcess(k, entry, priority).1 == k.procs.nextPid
    ensures Created(k, CreateProcess(k, entry, priority).0, k.procs.nextPid, a, b, entry, priority)
  {
    TwoLeastGranted(k.frames);
    var (f, pd) := Alloc(Alloc(k.frames).0);
    a, b := Alloc(k.frames).1 / 4096, pd / 4096;
    CreateIsSuccess(k, bs, entry, priority, pd, f);
    SuccessIsCreated(k, bs, entry, priority, a, b, pd, f);
  }

  lemma WrittenWords(m: seq<byte>, o: nat, entry: u32, n: nat)
    requires o + CONTEXT_SIZE <= |m| && n < MAX_PROCESSES
    ensures NewContextWords(WriteContext(m, o, entry, StackTop(n)), o, entry, n)
  {
    ContextReads(m, o, entry, StackTop(n));
  }

  lemma NewContextReads(h: HeapState, bs: seq<Block>, n: nat, entry: u32)
    requires Configured(h) && Tiles(h.mem, h.used, bs) && 1 <= n < MAX_PROCESSES && Contexts(bs, n - 1)
    requires h.size >= BLOCK_BYTES * (MAX_PROCESSES - 1)
    ensures Tiled(h)
    ensures NewContextWords(NewContext(h, entry, StackTop(n)).0.mem, ContextAt(n), entry, n)
  {
    var o: nat := ContextAt(n);
    NextKmalloc(h, bs, n - 1);
    NextContextWritten(h, bs, n - 1, entry, StackTop(n), o);
    var m := Kmalloc(h, CONTEXT_SIZE).0.mem;
    WrittenWords(m, o, entry, n);
    assert NewContext(h, entry, StackTop(n)).0.mem == WriteContext(m, o, entry, StackTop(n));
  }

  /** proc_create when it cannot: with a full table nothing changes; without memory the next slot
      is claimed but keeps its stack, page directory and context, the heap is as before, and the
      frames that pmm_alloc did grant stay taken. */
  lemma FailedExactly(k: Kernel, bs: seq<Block>, entry: u32, priority: u32)
    requires Inv(k, bs) && !CanCreate(k)
    ensures
      var (k', n) := (CreateProcess(k, entry, priority).0, k.procs.nextPid);
      && CreateProcess(k, entry, priority).1 == -1
      && (n == 256 ==> k' == k)
      && (n < 256 ==>
            && OthersKept(k, k') && k'.procs.nextPid == n && k'.heap == k.heap
            && k'.frames == Alloc(Alloc(k.frames).0).0
            && k'.procs.table[n] == k.procs.table[n].(pid := n, parentPid := k.procs.currentPid, state := Ready,
                                                      priority := priority, slice := 10, runtime := 0))
  {
    CreateFailsExactly(k, bs, entry, priority);
    TwoFramesExact(k.frames);
  }

  lemma CreateKeepsOthers(k: Kernel, bs: seq<Block>, entry: u32, priority: u32)
    requires Inv(k, bs)
    ensures Usable(k) && OthersKept(k, CreateProcess(k, entry, priority).0)
  {
    if CanCreate(k) {
      var a, b := CreatedExactly(k, bs, entry, priority);
    } else {
      FailedExactly(k, bs, entry, priority);
    }
  }

  // ---------------------------------------------------------------- runs

  /** Creations, and frames taken by other parts of the kernel. */
  datatype Call = CreateCall(entry: u32, priority: u32) | TakeCall

  ghost function Do(k: Kernel, c: Call): (Kernel, int)
    requires Usable(k)
  {
    match c
    case CreateCall(entry, priority) => CreateProcess(k, entry, priority)
    case TakeCall => (k.(frames := Alloc(k.frames).0), Alloc(k.frames).1)
  }

  /** No process yet, nothing in the heap, and a heap large enough for every context. */
  ghost predicate Boot(k: Kernel) {
    && Shaped(k.procs) && k.procs.nextPid == 1 && WellFormed(k.frames)
    && Configured(k.heap) && k.heap.used == 0 && k.heap.size >= BLOCK_BYTES * (MAX_PROCESSES - 1)
  }

  ghost predicate CreationRun(trace: seq<Kernel>, calls: seq<Call>, results: seq<int>) {
    && |trace| == |calls| + 1 && |results| == |calls| && Boot(trace[0])
    && forall i :: 0 <= i < |calls| ==> CallAt(trace, calls, results, i)
  }

  ghost predicate CallAt(trace: seq<Kernel>, calls: seq<Call>, results: seq<int>, i: nat)
    requires |trace| == |calls| + 1 && |results| == |calls| && i < |calls|
  {
    Usable(trace[i]) ==> (trace[i + 1], results[i]) == Do(trace[i], calls[i])
  }

  lemma {:induction false} RunInvariant(trace: seq<Kernel>, calls: seq<Call>, results: seq<int>, i: nat)
    returns (bs: seq<Block>)
    requires CreationRun(trace, calls, results) && i < |trace|
    ensures Inv(trace[i], bs) && Usable(trace[i])
    ensures trace[i].heap.start == trace[0].heap.start
  {
    if i == 0 {
      bs := [];
      assert Tiles(trace[0].heap.mem, 0, bs);
    } else {
      var before := RunInvariant(trace, calls, results, i - 1);
      var k, c := trace[i - 1], calls[i - 1];
      assert CallAt(trace, calls, results, i - 1);
      match c {
        case CreateCall(entry, priority) =>
          CreateKeepsInv(k, before, entry, priority);
          bs := BlocksAfter(k, before, entry, priority);
        case TakeCall =>
          bs := before;
          AllocExact(k.frames);
          FailureKeepsInv(k, before, k.procs, Alloc(k.frames).0);
      }
    }
  }

  /** In every run of process creations, failing ones included, the heap holds exactly one
      88-byte block per process, so kmalloc never fails; process numbers are consecutive and
      match their slots; page directories are pairwise distinct allocated frames, never 0. */
  lemma RunOfCreations(trace: seq<Kernel>, calls: seq<Call>, results: seq<int>, i: nat)
    requires CreationRun(trace, calls, results) && i < |trace|
    ensures var k := trace[i];
      && Shaped(k.procs) && k.heap.used == BLOCK_BYTES * (k.procs.nextPid - 1) <= 22440
      && (forall p :: 1 <= p < k.procs.nextPid ==> SlotOk(k, p))
      && (forall p, q :: 1 <= p < q < k.procs.nextPid ==> DirsDiffer(k, p, q))
  {
    var bs := RunInvariant(trace, calls, results, i);
    ContextsUse(bs, |bs|, |bs|);
  }

  /** In every run a creation succeeds exactly when a slot and two frames are left and frame 0 is
      taken, and a success returns the next number. */
  lemma RunNumbers(trace: seq<Kernel>, calls: seq<Call>, results: seq<int>, i: nat)
    requires CreationRun(trace, calls, results) && i < |calls| && calls[i].CreateCall?
    ensures results[i] == if CanCreate(trace[i]) then trace[i].procs.nextPid else -1
    ensures trace[i + 1].procs.nextPid == trace[i].procs.nextPid + (if results[i] == -1 then 0 else 1)
  {
    var bs := RunInvariant(trace, calls, results, i);
    assert CallAt(trace, calls, results, i);
    CreateFailsExactly(trace[i], bs, calls[i].entry, calls[i].priority);
  }

  lemma {:induction false} CounterGrows(trace: seq<Kernel>, calls: seq<Call>, results: seq<int>, i: nat, j: nat)
    requires CreationRun(trace, calls, results) && i <= j < |trace|
    ensures trace[i].procs.nextPid <= trace[j].procs.nextPid
    decreases j
  {
    if i == j {
    } else {
      CounterGrows(trace, calls, results, i, j - 1);
      var bs := RunInvariant(trace, calls, results, j - 1);
      assert CallAt(trace, calls, results, j - 1);
      if calls[j - 1].CreateCall? { RunNumbers(trace, calls, results, j - 1); }
    }
  }

  /** In every run process numbers increase from one successful creation to the next, so no
      number is ever used twice. */
  lemma RunNumbersIncrease(trace: seq<Kernel>, calls: seq<Call>, results: seq<int>, i: nat, j: nat)
    requires CreationRun(trace, calls, results) && i < j < |calls|
    requires calls[i].CreateCall? && results[i] != -1 && calls[j].CreateCall? && results[j] != -1
    ensures 1 <= results[i] < results[j] < MAX_PROCESSES
  {
    var bs := RunInvariant(trace, calls, results, i);
    RunNumbers(trace, calls, results, i);
    CounterGrows(trace, calls, results, i + 1, j);
    RunNumbers(trace, calls, results, j);
  }

  /** What the run keeps of process `n`: its slot, and the bytes of its saved context. */
  predicate SameProcess(k: Kernel, k': Kernel, n: nat)
    requires Shaped(k.procs) && Shaped(k'.procs) && n < MAX_PROCESSES
  {
    k'.procs.table[n] == k.procs.table[n] && SameBelow(k.heap.mem, k'.heap.mem, BLOCK_BYTES * n)
  }

  /** Later creations, successful or not, leave a created process as it is. */
  lemma {:induction false} RunKeepsProcess(trace: seq<Kernel>, calls: seq<Call>, results: seq<int>, i: nat, j: nat, n: nat)
    requires CreationRun(trace, calls, results) && i <= j < |trace| && n < trace[i].procs.nextPid && n < MAX_PROCESSES
    ensures Shaped(trace[i].procs) && Shaped(trace[j].procs)
    ensures n < trace[j].procs.nextPid && SameProcess(trace[i], trace[j], n)
    decreases j
  {
    var bs := RunInvariant(trace, calls, results, i);
    if i == j {
    } else {
      RunKeepsProcess(trace, calls, results, i, j - 1, n);
      var before := RunInvariant(trace, calls, results, j - 1);
      var k, c := trace[j - 1], calls[j - 1];
      assert CallAt(trace, calls, results, j - 1);
      if c.CreateCall? { CreateKeepsOthers(k, before, c.entry, c.priority); }
    }
  }

  lemma SameContextWords(m: seq<byte>, m': seq<byte>, entry: u32, n: nat)
    requires n >= 1 && NewContextWords(m, ContextAt(n), entry, n) && SameBelow(m, m', BLOCK_BYTES * n)
    ensures NewContextWords(m', ContextAt(n), entry, n)
  {
  }

  lemma CreatedInRun(trace: seq<Kernel>, calls: seq<Call>, results: seq<int>, i: nat) returns (a: nat, b: nat)
    requires CreationRun(trace, calls, results) && i < |calls| && calls[i].CreateCall? && results[i] != -1
    ensures Shaped(trace[i].procs) && results[i] == trace[i].procs.nextPid && 1 <= results[i] < MAX_PROCESSES
    ensures trace[i].heap.start == trace[0].heap.start
    ensures Created(trace[i], trace[i + 1], results[i], a, b, calls[i].entry, calls[i].priority)
  {
    var bs := RunInvariant(trace, calls, results, i);
    RunNumbers(trace, calls, results, i);
    assert CallAt(trace, calls, results, i);
    a, b := CreatedExactly(trace[i], bs, calls[i].entry, calls[i].priority);
  }

  /** From a successful proc_create on, and as long as there are only creations, the process has the
      priority and the entry point of that very call, and a page directory, stack and context of
      its own. */
  lemma RunKeepsCreated(trace: seq<Kernel>, calls: seq<Call>, results: seq<int>, i: nat, j: nat)
    returns (a: nat, b: nat)
    requires CreationRun(trace, calls, results) && i < j < |trace| && calls[i].CreateCall? && results[i] != -1
    ensures 1 <= results[i] < MAX_PROCESSES && Shaped(trace[i].procs) && Shaped(trace[j].procs)
    ensures TwoLeast(trace[i].frames, a, b)
    ensures NewContextWords(trace[j].heap.mem, ContextAt(results[i]), calls[i].entry, results[i])
    ensures NewPcb(trace[j].procs.table[results[i]], trace[i].procs.table[results[i]], results[i],
                   trace[0].procs.currentPid, calls[i].priority, b, trace[0].heap.start + ContextAt(results[i]))
  {
    var n := trace[i].procs.nextPid;
    a, b := CreatedInRun(trace, calls, results, i);
    RunKeepsProcess(trace, calls, results, i + 1, j, n);
    SameContextWords(trace[i + 1].heap.mem, trace[j].heap.mem, calls[i].entry, n);
    RunKeepsParent(trace, calls, results, i);
  }

  lemma {:induction false} RunKeepsParent(trace: seq<Kernel>, calls: seq<Call>, results: seq<int>, i: nat)
    requires CreationRun(trace, calls, results) && i < |trace|
    ensures trace[i].procs.currentPid == trace[0].procs.currentPid
  {
    if i == 0 {
    } else {
      RunKeepsParent(trace, calls, results, i - 1);
      var bs := RunInvariant(trace, calls, results, i - 1);
      var c := calls[i - 1];
      assert CallAt(trace, calls, results, i - 1);
      if c.CreateCall? { CreateKeepsOthers(trace[i - 1], bs, c.entry, c.priority); }
    }
  }

  /** proc_init: every slot free of number and context and ready, slot 0 running and current, and
      number 0 as the parent of what is created next; nothing else changes. */
  lemma InitExact(p: Procs, i: nat)
    requires |p.table| == MAX_PROCESSES && i < 256
    ensures Init(p).current == Some(0) && Init(p).currentPid == 0 && Init(p).nextPid == p.nextPid
    ensures |Init(p).table| == 256 && Init(p).table[i] ==
            p.table[i].(pid := 0, context := 0, state := if i == 0 then Running else Ready)
  {
  }

  // ---------------------------------------------------------------- kernel addresses

  predicate InHeap(k: Kernel, a: int) {
    k.heap.start <= a < k.heap.start + k.heap.used
  }

  /** The bitmap lies 2 MB into the kernel's address range, one bit per frame. */
  predicate InBitmap(k: Kernel, a: int) {
    BITMAP_BASE <= a < BITMAP_BASE + (k.frames.total + 7) / 8
  }

  predicate InStack(k: Kernel, pid: nat, a: int)
    requires Shaped(k.procs) && pid < MAX_PROCESSES
  {
    k.procs.table[pid].kernelStack <= a < k.procs.table[pid].kernelStack + PAGE_SIZE
  }

  /** In every run of creations on the kernel's own layout, the used heap, the frame bitmap and
      the stacks of the created processes are pairwise disjoint. */
  lemma RunKeepsAreasApart(trace: seq<Kernel>, calls: seq<Call>, results: seq<int>, i: nat, a: int)
    requires CreationRun(trace, calls, results) && i < |trace| && trace[0].heap.start == HEAP_BASE
    ensures var k := trace[i];
      && Shaped(k.procs)
      && !(InHeap(k, a) && InBitmap(k, a))
      && (forall p :: 1 <= p < k.procs.nextPid && InStack(k, p, a) ==>
            !InHeap(k, a) && !InBitmap(k, a)
            && forall q :: 1 <= q < k.procs.nextPid && q != p ==> !InStack(k, q, a))
  {
    var bs := RunInvariant(trace, calls, results, i);
    var k := trace[i];
    RunOfCreations(trace, calls, results, i);
    forall p | 1 <= p < k.procs.nextPid && InStack(k, p, a)
      ensures !InHeap(k, a) && !InBitmap(k, a)
      ensures forall q :: 1 <= q < k.procs.nextPid && q != p ==> !InStack(k, q, a)
    {
      assert SlotOk(k, p);
      forall q | 1 <= q < k.procs.nextPid && q != p ensures !InStack(k, q, a) { assert SlotOk(k, q); }
    }
  }

  /** The layout itself does not keep heap and bitmap apart: the 8 MB heap region reaches over
      the bitmap, and the two meet exactly when more than 1 MB of the heap is used. */
  lemma HeapMeetsBitmap(k: Kernel)
    requires k.heap.start == 0xC010_0000 && k.heap.size == 0x80_0000 && k.heap.used <= k.heap.size && k.frames.total > 0
    ensures (exists a :: InHeap(k, a) && InBitmap(k, a)) <==> k.heap.used > 0x10_0000
  {
    if k.heap.used > 0x10_0000 { assert InHeap(k, BITMAP_BASE) && InBitmap(k, BITMAP_BASE); }
  }

  /** Nor does it keep heap and stacks apart: the heap region covers the stack area, and the heap
      in use meets the stack of slot `pid` exactly when it reaches past the start of that stack. */
  lemma HeapMeetsStack(k: Kernel, pid: nat)
    requires k.heap.start == 0xC010_0000 && k.heap.size == 0x80_0000 && k.heap.used <= k.heap.size
    requires Shaped(k.procs) && pid < MAX_PROCESSES && k.procs.table[pid].kernelStack == StackOf(pid)
    ensures (exists a :: InHeap(k, a) && InStack(k, pid, a)) <==> k.heap.used > 0x20_0000 + pid * PAGE_SIZE
    ensures HEAP_BASE <= StackOf(pid) && StackOf(pid) + PAGE_SIZE <= HEAP_BASE + k.heap.size
  {
    if k.heap.used > 0x20_0000 + pid * PAGE_SIZE {
      assert InHeap(k, StackOf(pid)) && InStack(k, pid, StackOf(pid));
    }
  }

  /** On a fresh frame allocator the first proc_create fails, because its stack gets frame 0,
      and loses two frames; the second one succeeds with process number 1. */
  lemma FirstCreateFails(k: Kernel, e1: u32, p1: u32, e2: u32, p2: u32)
    requires Boot(k) && k.frames.used == {} && k.frames.total >= 4
    ensures Usable(k) && CreateProcess(k, e1, p1).1 == -1
    ensures CreateProcess(k, e1, p1).0.frames.used == {0, 1}
    ensures Usable(CreateProcess(k, e1, p1).0) && CreateProcess(CreateProcess(k, e1, p1).0, e2, p2).1 == 1
  {
    assert Inv(k, []) by { assert Tiles(k.heap.mem, 0, []); }
    var f1 := Alloc(k.frames).0;
    assert LeastFree(k.frames, 0) == 0 && LeastFree(f1, 0) == LeastFree(f1, 1) == 1;
    assert Alloc(f1).0.used == {0, 1};
    CreateFailsExactly(k, [], e1, p1);
    CreateKeepsInv(k, [], e1, p1);
    CreateFailsExactly(CreateProcess(k, e1, p1).0, [], e2, p2);
  }
}
