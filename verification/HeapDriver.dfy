/** The kernel heap's static data and functions, on an array of bytes. */
module HeapDriver {
  import opened Words
  import opened Heap
  import opened HeapBlocks

  class KernelHeap {
    var start: u32
    var size: u32
    var used: u32
    var mem: array<byte>

    ghost function State(): HeapState
      reads this, mem
    {
      HeapState(start, size, used, mem[..])
    }

    ghost predicate Valid()
      reads this, mem
    {
      Tiled(State())
    }

    /** heap_init: the memory keeps whatever bytes it held. */
    constructor (start: u32, region: array<byte>)
      requires start + region.Length < U32_LIMIT && 2 * region.Length + HEADER_SIZE < U32_LIMIT
      ensures Valid() && mem == region
      ensures State() == HeapState(start, region.Length, 0, old(region[..]))
    {
      this.start, this.size, this.used, this.mem := start, region.Length, 0, region;
      new;
      assert Tiles(mem[..], 0, []);
    }

    method StoreU32(o: nat, v: u32)
      requires o + 4 <= mem.Length
      modifies mem
      ensures mem[..] == WriteU32(old(mem[..]), o, v)
    {
      mem[o], mem[o + 1], mem[o + 2], mem[o + 3] := ByteOf(v, 0), ByteOf(v, 1), ByteOf(v, 2), ByteOf(v, 3);
    }

    method LoadU32(o: nat) returns (v: u32)
      requires o + 4 <= mem.Length
      ensures v == ReadU32(mem[..], o)
    {
      v := (mem[o] as int) + 0x100 * (mem[o + 1] as int) + 0x1_0000 * (mem[o + 2] as int) + 0x100_0000 * (mem[o + 3] as int);
    }

    method StoreHeader(o: nat, total: u32)
      requires o + HEADER_SIZE <= mem.Length
      modifies mem
      ensures mem[..] == WriteHeader(old(mem[..]), o, total)
    {
      StoreU32(o, ALLOC_MAGIC);
      StoreU32(o + 4, total);
      mem[o + 8] := 1;
    }

    /** The search loop of kmalloc; `steps` counts the headers it looks at. */
    method Search(total: u32) returns (w: Walked, ghost steps: nat)
      requires used <= mem.Length && Walkable(mem[..], used, 0)
      ensures w == Walk(mem[..], used, total, 0)
      ensures Valid() ==> MIN_ALLOC_SIZE * steps <= used
    {
      ghost var m := mem[..];
      ghost var all := WalkLength(m, used, total, 0);
      var offset := 0;
      steps := 0;
      w := Full;
      while offset < used
        invariant Walkable(m, used, offset)
        invariant w == Full && Walk(m, used, total, 0) == Walk(m, used, total, offset)
        invariant steps + WalkLength(m, used, total, offset) == all
      {
        steps := steps + 1;
        var magic := LoadU32(offset);
        if magic != ALLOC_MAGIC {
          w := Corrupt;
          break;
        }
        var blockSize := LoadU32(offset + 4);
        if mem[offset + 8] == 0 && blockSize >= total {
          w := Fits(offset);
          break;
        }
        offset := offset + blockSize;
      }
      if Valid() { WalkIsShort(State(), total); }
    }

    /** The part of kmalloc after the search: take the block found, or append one. */
    method TakeBlock(total: u32, w: Walked) returns (ptr: u32)
      requires Configured(State()) && MIN_ALLOC_SIZE <= total && used + total < U32_LIMIT
      requires w.Fits? ==> w.off + HEADER_SIZE <= size
      modifies this`used, mem
      ensures (State(), ptr) == Place(old(State()), total, w)
    {
      match w
      case Corrupt =>
        return NULL;
      case Fits(o) =>
        mem[o + 8] := 1;
        return start + o + HEADER_SIZE;
      case Full =>
        if Add32(used, total) > size {
          return NULL;
        }
        ptr := start + used + HEADER_SIZE;
        StoreHeader(used, total);
        used := Add32(used, total);
    }

    /** kmalloc.  A valid heap stays valid; on other heaps the search must stay in the region. */
    method Malloc(n: u32) returns (ptr: u32)
      requires Configured(State()) && Walkable(mem[..], used, 0)
      modifies this`used, mem
      ensures (State(), ptr) == Kmalloc(old(State()), n)
      ensures old(Valid()) ==> Valid()
    {
      if Valid() { KmallocKeepsTiled(State(), n); }
      if n == 0 || n > size {
        return NULL;
      }
      NoWrap(State(), n);
      var total := TotalSize(n);
      var w;
      ghost var steps;
      w, steps := Search(total);
      ptr := TakeBlock(total, w);
    }

    /** kfree.  A valid heap stays valid if the pointer is NULL or one that kmalloc gave out. */
    method Free(ptr: u32) returns (status: int)
      requires Configured(State()) && Readable(State(), ptr)
      modifies mem
      ensures (State(), status) == Kfree(old(State()), ptr)
      ensures old(Valid() && (ptr == NULL || IsPayload(State(), ptr))) ==> Valid()
    {
      if Valid() && IsPayload(State(), ptr) { KfreeKeepsTiled(State(), ptr); }
      if ptr == NULL {
        return 0;
      }
      var o := ptr - HEADER_SIZE - start;
      var magic := LoadU32(o);
      if magic != ALLOC_MAGIC {
        return -1;
      }
      mem[o + 8] := 0;
      return 0;
    }
  }
}
