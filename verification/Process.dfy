/** The process table, and process creation on top of the frame allocator and the heap. */
module Process {
  import opened Words
  import opened Pmm
  import opened Heap
  import opened HeapBlocks
  import opened HeapDriver

  const MAX_PROCESSES := 256
  const TIME_SLICE: u32 := 10
  const CONTEXT_SIZE: u32 := 76
  const STACK_AREA := 0xC030_0000
  const KERNEL_CODE: u32 := 0x08
  const KERNEL_DATA: u32 := 0x10
  const EFLAGS: u32 := 0x202

  datatype ProcState = Ready | Running | Blocked | Zombie

  datatype Pcb = Pcb(pid: u32, parentPid: u32, state: ProcState, priority: u32, context: u32, pageDir: u32,
                     kernelStack: u32, slice: u32, runtime: u32, blockedOn: u32)

  /** The table, the index of the current process if there is one, and the two counters. */
  datatype Procs = Procs(table: seq<Pcb>, current: Option<nat>, currentPid: u32, nextPid: u32)

  predicate Shaped(p: Procs) {
    && |p.table| == MAX_PROCESSES
    && (p.current.Some? ==> p.current.value < MAX_PROCESSES)
    && 1 <= p.nextPid <= MAX_PROCESSES
  }

  // ---------------------------------------------------------------- the table

  /** proc_init; only these fields are set. */
  function Init(p: Procs): Procs
    requires |p.table| == MAX_PROCESSES
  {
    p.(table := seq(MAX_PROCESSES, i requires 0 <= i < MAX_PROCESSES =>
                  p.table[i].(pid := 0, state := if i == 0 then Running else Ready, context := NULL)),
       current := Some(0), currentPid := 0)
  }

  function StackOf(pid: nat): u32
    requires pid <= MAX_PROCESSES
  {
    STACK_AREA + pid * PAGE_SIZE
  }

  /** The stack pointer of a new process: the last word of its stack. */
  function StackTop(pid: nat): u32
    requires pid <= MAX_PROCESSES
  {
    StackOf(pid) + PAGE_SIZE - 4
  }

  /** What proc_create writes before it knows whether there is memory. */
  function Claim(p: Procs, priority: u32): Procs
    requires Shaped(p) && p.nextPid < MAX_PROCESSES
  {
    p.(table := p.table[p.nextPid := p.table[p.nextPid].(
                  pid := p.nextPid, parentPid := p.currentPid, state := Ready, priority := priority,
                  slice := TIME_SLICE, runtime := 0)])
  }

  /** What proc_create writes once it has its frames, and what a NULL context leaves undone. */
  function Complete(p: Procs, pdPhys: u32, context: u32): (Procs, int)
    requires Shaped(p) && p.nextPid < MAX_PROCESSES
  {
    var p' := p.(table := p.table[p.nextPid := p.table[p.nextPid].(
                   kernelStack := StackOf(p.nextPid), pageDir := pdPhys, context := context)]);
    if context == NULL then (p', -1) else (p'.(nextPid := p.nextPid + 1), p.nextPid as int)
  }

  /** proc_create on the table, for given results of its two pmm_alloc calls and its kmalloc. */
  function Create(p: Procs, priority: u32, stackPhys: u32, pdPhys: u32, context: u32): (Procs, int)
    requires Shaped(p)
  {
    if p.nextPid >= MAX_PROCESSES then (p, -1)
    else if stackPhys == 0 || pdPhys == 0 then (Claim(p, priority), -1)
    else Complete(Claim(p, priority), pdPhys, context)
  }

  /** proc_exit */
  function Exit(p: Procs, pid: u32): (Procs, int)
    requires Shaped(p)
  {
    if pid >= MAX_PROCESSES then (p, -1)
    else (p.(table := p.table[pid := p.table[pid].(state := Zombie)]), 0)
  }

  /** proc_block */
  function BlockOn(p: Procs, resource: u32): (Procs, int)
    requires Shaped(p)
  {
    match p.current
    case None => (p, -1)
    case Some(c) => (p.(table := p.table[c := p.table[c].(state := Blocked, blockedOn := resource)]), 0)
  }

  /** proc_unblock */
  function Unblock(p: Procs, pid: u32): (Procs, int)
    requires Shaped(p)
  {
    if pid >= MAX_PROCESSES || p.table[pid].state != Blocked then (p, -1)
    else (p.(table := p.table[pid := p.table[pid].(state := Ready, blockedOn := NULL)]), 0)
  }

  // ---------------------------------------------------------------- creation with memory

  /** The words of the interrupt context that proc_create sets, with their offsets: nine of
      nineteen. */
  function ContextFields(entry: u32, esp: u32): seq<(nat, u32)> {
    [(56, entry), (60, KERNEL_CODE), (12, KERNEL_DATA), (8, KERNEL_DATA), (4, KERNEL_DATA), (0, KERNEL_DATA),
     (72, KERNEL_DATA), (28, esp), (64, EFLAGS)]
  }

  predicate FieldsFit(fields: seq<(nat, u32)>) {
    forall i :: 0 <= i < |fields| ==> fields[i].0 + 4 <= CONTEXT_SIZE
  }

  /** The bytes after storing the first `n` fields of a structure at `o`. */
  function WriteFields(m: seq<byte>, o: nat, fields: seq<(nat, u32)>, n: nat): (r: seq<byte>)
    requires o + CONTEXT_SIZE <= |m| && n <= |fields| && FieldsFit(fields)
    ensures |r| == |m|
  {
    if n == 0 then m else WriteU32(WriteFields(m, o, fields, n - 1), o + fields[n - 1].0, fields[n - 1].1)
  }

  lemma {:induction false} FieldsFrame(m: seq<byte>, o: nat, fields: seq<(nat, u32)>, n: nat, k: nat)
    requires o + CONTEXT_SIZE <= |m| && n <= |fields| && FieldsFit(fields)
    requires k < |m| && !(o <= k < o + CONTEXT_SIZE)
    ensures WriteFields(m, o, fields, n)[k] == m[k]
  {
    if n == 0 {
    } else {
      FieldsFrame(m, o, fields, n - 1, k);
    }
  }

  function WriteContext(m: seq<byte>, o: nat, entry: u32, esp: u32): (r: seq<byte>)
    requires o + CONTEXT_SIZE <= |m|
    ensures |r| == |m|
  {
    WriteFields(m, o, ContextFields(entry, esp), 9)
  }

  lemma ContextStaysInside(m: seq<byte>, o: nat, entry: u32, esp: u32)
    requires o + CONTEXT_SIZE <= |m|
    ensures SameOutside(m, WriteContext(m, o, entry, esp), o, o + CONTEXT_SIZE)
  {
    forall k | 0 <= k < |m| && !(o <= k < o + CONTEXT_SIZE)
      ensures WriteContext(m, o, entry, esp)[k] == m[k]
    {
      FieldsFrame(m, o, ContextFields(entry, esp), 9, k);
    }
  }

  // ---------------------------------------------------------------- one proc_create

  /** The table together with the memory that process creation draws on. */
  datatype Kernel = Kernel(procs: Procs, frames: Frames, heap: HeapState)

  ghost predicate Usable(k: Kernel) {
    Shaped(k.procs) && k.frames.total < U32_LIMIT / PAGE_SIZE && Tiled(k.heap)
  }

  /** kmalloc of a context, and its contents. */
  ghost function NewContext(h: HeapState, entry: u32, esp: u32): (HeapState, u32)
    requires Tiled(h)
  {
    KmallocInside(h, CONTEXT_SIZE);
    var (h', ptr) := Kmalloc(h, CONTEXT_SIZE);
    if ptr == NULL then (h', NULL)
    else
      (h'.(mem := WriteContext(h'.mem, ptr - h.start, entry, esp)), ptr)
  }

  ghost function Fill(p: Procs, h: HeapState, entry: u32, pdPhys: u32): (Procs, HeapState, int)
    requires Shaped(p) && p.nextPid < MAX_PROCESSES && Tiled(h)
  {
    var (h', context) := NewContext(h, entry, StackTop(p.nextPid));
    var (p', status) := Complete(p, pdPhys, context);
    (p', h', status)
  }

  /** proc_create */
  ghost function CreateProcess(k: Kernel, entry: u32, priority: u32): (Kernel, int)
    requires Usable(k)
  {
    if k.procs.nextPid >= MAX_PROCESSES then (k, -1)
    else
      var (f1, stackPhys) := Alloc(k.frames);
      var (f2, pdPhys) := Alloc(f1);
      if stackPhys == 0 || pdPhys == 0 then (Kernel(Claim(k.procs, priority), f2, k.heap), -1)
      else
        var (p, h, status) := Fill(Claim(k.procs, priority), k.heap, entry, pdPhys);
        (Kernel(p, f2, h), status)
  }

  /** A block handed out by kmalloc has room for what was asked. */
  lemma KmallocInside(h: HeapState, n: u32)
    requires Tiled(h)
    ensures Walkable(h.mem, h.used, 0)
    ensures var (h', ptr) := Kmalloc(h, n);
      && h'.start == h.start && |h'.mem| == |h.mem| == h.size
      && (ptr != NULL ==> h.start + HEADER_SIZE <= ptr && ptr - h.start + n <= h'.used <= h.size)
  {
    var bs, j := KmallocBlock(h, n);
    if Kmalloc(h, n).1 != NULL { Ordered(bs, j, |bs|); }
  }

  /** The block that kmalloc hands out. */
  lemma KmallocBlock(h: HeapState, n: u32) returns (bs: seq<Block>, j: nat)
    requires Tiled(h)
    ensures Walkable(h.mem, h.used, 0)
    ensures var (h', ptr) := Kmalloc(h, n);
      && h'.start == h.start && h'.size == h.size && Configured(h') && Tiles(h'.mem, h'.used, bs)
      && (ptr != NULL ==> j < |bs| && ptr == PointerTo(h.start, bs[j]) && bs[j].size >= HEADER_SIZE + n)
  {
    var bs0 :| Tiles(h.mem, h.used, bs0);
    KmallocRefines(h, bs0, n);
    var (bs', r) := Allocate(bs0, h.size, n);
    bs, j := bs', if r.Some? then r.value else 0;
  }

  /** A new context lies inside the payload of its block, so the heap keeps its tiling. */
  lemma NewContextKeepsTiled(h: HeapState, entry: u32, esp: u32)
    requires Tiled(h)
    ensures Tiled(NewContext(h, entry, esp).0)
  {
    var bs, j := KmallocBlock(h, CONTEXT_SIZE);
    var (h', ptr) := Kmalloc(h, CONTEXT_SIZE);
    if ptr != NULL { ContextInBlock(h', bs, j, entry, esp); }
  }

  lemma ContextInBlock(h: HeapState, bs: seq<Block>, j: nat, entry: u32, esp: u32)
    requires Tiles(h.mem, h.used, bs) && j < |bs| && bs[j].size >= HEADER_SIZE + CONTEXT_SIZE
    ensures bs[j].Payload() + CONTEXT_SIZE <= |h.mem|
    ensures Tiles(WriteContext(h.mem, bs[j].Payload(), entry, esp), h.used, bs)
  {
    Ordered(bs, j, |bs|);
    ContextStaysInside(h.mem, bs[j].Payload(), entry, esp);
    TilesPayload(h.mem, WriteContext(h.mem, bs[j].Payload(), entry, esp), h.used, bs, j);
  }

  /** proc_create leaves everything fit for the next call. */
  lemma CreateKeepsUsable(k: Kernel, entry: u32, priority: u32)
    requires Usable(k)
    ensures Usable(CreateProcess(k, entry, priority).0)
  {
    if k.procs.nextPid < MAX_PROCESSES {
      NewContextKeepsTiled(k.heap, entry, StackTop(k.procs.nextPid));
    }
  }

  // ---------------------------------------------------------------- the process manager

  class ProcessManager {
    const table: array<Pcb>
    var current: Option<nat>
    var currentPid: u32
    var nextPid: u32
    const pmm: FrameAllocator
    const heap: KernelHeap

    ghost function ProcsState(): Procs
      reads this, table
    {
      Procs(table[..], current, currentPid, nextPid)
    }

    ghost function State(): Kernel
      requires pmm.Shaped()
      reads this, table, pmm, pmm.bitmap, heap, heap.mem
    {
      Kernel(ProcsState(), pmm.State(), heap.State())
    }

    ghost predicate Valid()
      reads this, table, pmm, pmm.bitmap, heap, heap.mem
    {
      && pmm.bitmap as object != table && heap.mem as object != table && heap.mem as object != pmm.bitmap
      && pmm.Valid() && Usable(State())
    }

    /** The static data as it is before proc_init, on a table that the caller provides. */
    constructor (table: array<Pcb>, pmm: FrameAllocator, heap: KernelHeap)
      requires table.Length == MAX_PROCESSES && pmm.Valid() && Tiled(heap.State())
      requires pmm.bitmap as object != table && heap.mem as object != table && heap.mem as object != pmm.bitmap
      ensures Valid() && this.table == table && this.pmm == pmm && this.heap == heap
      ensures ProcsState() == Procs(table[..], None, 0, 1)
    {
      this.table, this.pmm, this.heap := table, pmm, heap;
      current, currentPid, nextPid := None, 0, 1;
    }

    /** proc_init */
    method Initialize()
      requires Valid()
      modifies this`current, this`currentPid, table
      ensures Valid() && State() == old(State()).(procs := Init(old(ProcsState())))
    {
      for i := 0 to MAX_PROCESSES
        invariant pmm.Valid() && Usable(State()) && State() == old(State()).(procs := ProcsState())
        invariant current == old(current) && currentPid == old(currentPid)
        invariant forall k :: 0 <= k < i ==> table[k] == old(table[k]).(pid := 0, state := Ready, context := NULL)
        invariant forall k :: i <= k < MAX_PROCESSES ==> table[k] == old(table[k])
      {
        table[i] := table[i].(pid := 0, state := Ready, context := NULL);
      }
      table[0] := table[0].(pid := 0, state := Running);
      current := Some(0);
      currentPid := 0;
      assert table[..] == Init(old(ProcsState())).table;
    }

    /** One assignment to a field of the context; `n` fields have been set before. */
    method StoreField(o: nat, offset: nat, v: u32, ghost n: nat, ghost m: seq<byte>, ghost entry: u32, ghost esp: u32)
      requires o + CONTEXT_SIZE <= |m| == heap.mem.Length
      requires n < 9 && ContextFields(entry, esp)[n] == (offset, v)
      requires heap.mem[..] == WriteFields(m, o, ContextFields(entry, esp), n)
      modifies heap.mem
      ensures heap.mem[..] == WriteFields(m, o, ContextFields(entry, esp), n + 1)
    {
      assert FieldsFit(ContextFields(entry, esp));
      heap.StoreU32(o + offset, v);
    }

    method StoreEntry(o: nat, entry: u32, ghost m: seq<byte>, ghost esp: u32)
      requires o + CONTEXT_SIZE <= |m| == heap.mem.Length && heap.mem[..] == m
      modifies heap.mem
      ensures heap.mem[..] == WriteFields(m, o, ContextFields(entry, esp), 4)
    {
      StoreField(o, 56, entry, 0, m, entry, esp);
      StoreField(o, 60, KERNEL_CODE, 1, m, entry, esp);
      StoreField(o, 12, KERNEL_DATA, 2, m, entry, esp);
      StoreField(o, 8, KERNEL_DATA, 3, m, entry, esp);
    }

    method StoreContext(o: nat, entry: u32, esp: u32)
      requires o + CONTEXT_SIZE <= heap.mem.Length
      modifies heap.mem
      ensures heap.State() == old(heap.State()).(mem := WriteContext(old(heap.mem[..]), o, entry, esp))
    {
      ghost var m := heap.mem[..];
      StoreEntry(o, entry, m, esp);
      StoreField(o, 4, KERNEL_DATA, 4, m, entry, esp);
      StoreField(o, 0, KERNEL_DATA, 5, m, entry, esp);
      StoreField(o, 72, KERNEL_DATA, 6, m, entry, esp);
      StoreField(o, 28, esp, 7, m, entry, esp);
      StoreField(o, 64, EFLAGS, 8, m, entry, esp);
    }

    method ClaimSlot(priority: u32)
      requires Shaped(ProcsState()) && nextPid < MAX_PROCESSES
      modifies table
      ensures ProcsState() == Claim(old(ProcsState()), priority)
    {
      table[nextPid] := table[nextPid].(pid := nextPid, parentPid := currentPid, state := Ready,
                                        priority := priority, slice := TIME_SLICE, runtime := 0);
    }

    method AllocateContext(entry: u32, esp: u32) returns (context: u32)
      requires Tiled(heap.State())
      modifies heap`used, heap.mem
      ensures (heap.State(), context) == NewContext(old(heap.State()), entry, esp)
    {
      ghost var h0 := heap.State();
      KmallocInside(h0, CONTEXT_SIZE);
      context := heap.Malloc(CONTEXT_SIZE);
      if context != NULL {
        StoreContext(context - heap.start, entry, esp);
      }
      assert heap.State() == NewContext(h0, entry, esp).0;
    }

    /** The part of proc_create after the two frames are there. */
    method FillSlot(entry: u32, pdPhys: u32) returns (status: int)
      requires Shaped(ProcsState()) && nextPid < MAX_PROCESSES && Tiled(heap.State()) && heap.mem as object != table
      modifies this`nextPid, table, heap`used, heap.mem
      ensures (ProcsState(), heap.State(), status) == Fill(old(ProcsState()), old(heap.State()), entry, pdPhys)
    {
      ghost var p0, h0 := ProcsState(), heap.State();
      var stack := StackOf(nextPid);
      table[nextPid] := table[nextPid].(kernelStack := stack, pageDir := pdPhys);
      var context := AllocateContext(entry, StackTop(nextPid));
      table[nextPid] := table[nextPid].(context := context);
      assert table[..] == Complete(p0, pdPhys, context).0.table;
      assert heap.State() == NewContext(h0, entry, StackTop(p0.nextPid)).0;
      if context == NULL {
        return -1;
      }
      status := nextPid;
      nextPid := nextPid + 1;
    }

    /** proc_create */
    method CreateNew(entry: u32, priority: u32) returns (status: int)
      requires Valid()
      modifies this`nextPid, table, pmm`allocatedPages, pmm.bitmap, heap`used, heap.mem
      ensures Valid() && (State(), status) == CreateProcess(old(State()), entry, priority)
    {
      ghost var k0 := State();
      CreateKeepsUsable(k0, entry, priority);
      if nextPid >= MAX_PROCESSES {
        return -1;
      }
      ClaimSlot(priority);
      var stackPhys := pmm.Allocate();
      var pdPhys := pmm.Allocate();
      if stackPhys == 0 || pdPhys == 0 {
        return -1;
      }
      assert heap.State() == k0.heap && ProcsState() == Claim(k0.procs, priority);
      status := FillSlot(entry, pdPhys);
    }

    /** proc_exit */
    method ExitProcess(pid: u32) returns (status: int)
      requires Shaped(ProcsState())
      modifies table
      ensures (ProcsState(), status) == Exit(old(ProcsState()), pid)
    {
      if pid >= MAX_PROCESSES {
        return -1;
      }
      table[pid] := table[pid].(state := Zombie);
      return 0;
    }

    /** proc_block */
    method BlockCurrent(resource: u32) returns (status: int)
      requires Shaped(ProcsState())
      modifies table
      ensures (ProcsState(), status) == BlockOn(old(ProcsState()), resource)
    {
      if current.None? {
        return -1;
      }
      table[current.value] := table[current.value].(state := Blocked, blockedOn := resource);
      return 0;
    }

    /** proc_unblock */
    method UnblockProcess(pid: u32) returns (status: int)
      requires Shaped(ProcsState())
      modifies table
      ensures (ProcsState(), status) == Unblock(old(ProcsState()), pid)
    {
      if pid >= MAX_PROCESSES {
        return -1;
      }
      if table[pid].state != Blocked {
        return -1;
      }
      table[pid] := table[pid].(state := Ready, blockedOn := NULL);
      return 0;
    }
  }
}
