/** The kernel heap: a first-fit allocator that never splits or merges blocks and keeps its
    block headers in the same bytes as the payloads.  A header takes 12 bytes in the i386
    layout: magic word, block size, one `used` byte and three bytes of padding. */
module Heap {
  import opened Words

  const ALLOC_MAGIC: u32 := 0xDEADBEEF
  const HEADER_SIZE := 12
  const MIN_ALLOC_SIZE := 32
  const NULL: u32 := 0

  /** `mem` is the region [start, start + size); `used` is the allocated prefix of it. */
  datatype HeapState = HeapState(start: u32, size: u32, used: u32, mem: seq<byte>)

  /** The region does not wrap around, and neither does `used + total_size` for any request
      that passes the size test (see GuardIsExact). */
  predicate Configured(h: HeapState) {
    && |h.mem| == h.size
    && h.used <= h.size
    && h.start + h.size < U32_LIMIT
    && 2 * h.size + HEADER_SIZE < U32_LIMIT
  }

  // ---------------------------------------------------------------- headers in bytes

  function MagicAt(m: seq<byte>, o: nat): u32
    requires o + HEADER_SIZE <= |m|
  {
    ReadU32(m, o)
  }

  function SizeAt(m: seq<byte>, o: nat): u32
    requires o + HEADER_SIZE <= |m|
  {
    ReadU32(m, o + 4)
  }

  predicate UsedAt(m: seq<byte>, o: nat)
    requires o + HEADER_SIZE <= |m|
  {
    m[o + 8] != 0
  }

  function WriteHeader(m: seq<byte>, o: nat, total: u32): (r: seq<byte>)
    requires o + HEADER_SIZE <= |m|
    ensures |r| == |m|
    ensures MagicAt(r, o) == ALLOC_MAGIC && SizeAt(r, o) == total && UsedAt(r, o)
    ensures forall i :: 0 <= i < |m| && !(o <= i < o + HEADER_SIZE) ==> r[i] == m[i]
  {
    var m1 := WriteU32(m, o, ALLOC_MAGIC);
    ReadBack(m, o, ALLOC_MAGIC);
    ReadBack(m1, o + 4, total);
    WriteU32(m1, o + 4, total)[o + 8 := 1]
  }

  /** Header size plus request, in 32-bit arithmetic, raised to the minimum. */
  function TotalSize(n: u32): u32 {
    var total := Add32(HEADER_SIZE, n);
    if total < MIN_ALLOC_SIZE then MIN_ALLOC_SIZE else total
  }

  /** In a configured heap no admitted request wraps around. */
  lemma NoWrap(h: HeapState, n: u32)
    requires Configured(h) && n <= h.size
    ensures TotalSize(n) == if n < MIN_ALLOC_SIZE - HEADER_SIZE then MIN_ALLOC_SIZE else n + HEADER_SIZE
    ensures Add32(h.used, TotalSize(n)) == h.used + TotalSize(n)
  {
  }

  // ---------------------------------------------------------------- the operations

  /** Walking the headers stays inside the region and makes progress, up to `used` or to the
      first header without the magic word. */
  predicate Walkable(m: seq<byte>, used: nat, off: nat)
    requires used <= |m|
    decreases used - off
  {
    off == used
    || (&& off < used
        && off + HEADER_SIZE <= |m|
        && (MagicAt(m, off) == ALLOC_MAGIC ==>
              SizeAt(m, off) > 0 && Walkable(m, used, off + SizeAt(m, off))))
  }

  datatype Walked = Fits(off: nat) | Full | Corrupt

  /** The search loop of kmalloc, from offset `off`. */
  function Walk(m: seq<byte>, used: nat, total: u32, off: nat): (r: Walked)
    requires used <= |m|
    requires Walkable(m, used, off)
    ensures r.Fits? ==> r.off + HEADER_SIZE <= |m|
    decreases used - off
  {
    if off >= used then Full
    else if MagicAt(m, off) != ALLOC_MAGIC then Corrupt
    else if !UsedAt(m, off) && SizeAt(m, off) >= total then Fits(off)
    else Walk(m, used, total, off + SizeAt(m, off))
  }

  /** What kmalloc does once the search is over. */
  function Place(h: HeapState, total: u32, w: Walked): (HeapState, u32)
    requires Configured(h) && MIN_ALLOC_SIZE <= total && h.used + total < U32_LIMIT
    requires w.Fits? ==> w.off + HEADER_SIZE <= h.size
  {
    match w
    case Corrupt => (h, NULL)
    case Fits(o) => (h.(mem := h.mem[o + 8 := 1]), h.start + o + HEADER_SIZE)
    case Full =>
      if Add32(h.used, total) > h.size then (h, NULL)
      else (h.(mem := WriteHeader(h.mem, h.used, total), used := Add32(h.used, total)),
            h.start + h.used + HEADER_SIZE)
  }

  /** kmalloc on bytes: the new heap and the returned pointer. */
  function Kmalloc(h: HeapState, n: u32): (HeapState, u32)
    requires Configured(h) && Walkable(h.mem, h.used, 0)
  {
    if n == 0 || n > h.size then (h, NULL)
    else Place(h, TotalSize(n), Walk(h.mem, h.used, TotalSize(n), 0))
  }

  /** The pointers kfree can look at: NULL, or anything with room for a header before it. */
  predicate Readable(h: HeapState, ptr: u32) {
    ptr == NULL || h.start + HEADER_SIZE <= ptr <= h.start + h.size
  }

  /** kfree on bytes: the new heap and the status. */
  function Kfree(h: HeapState, ptr: u32): (HeapState, int)
    requires Configured(h) && Readable(h, ptr)
  {
    if ptr == NULL then (h, 0)
    else
      var o := ptr - HEADER_SIZE - h.start;
      if MagicAt(h.mem, o) != ALLOC_MAGIC then (h, -1)
      else (h.(mem := h.mem[o + 8 := 0]), 0)
  }

  // ---------------------------------------------------------------- blocks

  /** A block of the heap: header and payload occupy [off, off + size). */
  datatype Block = Block(off: nat, size: nat, live: bool) {
    function End(): nat { off + size }
    function Payload(): nat { off + HEADER_SIZE }
  }

  /** Block `b` is described by the header at its offset. */
  predicate HeaderOf(m: seq<byte>, b: Block) {
    && b.off + HEADER_SIZE <= |m|
    && MagicAt(m, b.off) == ALLOC_MAGIC
    && SizeAt(m, b.off) == b.size
    && UsedAt(m, b.off) == b.live
  }

  predicate HeaderAt(m: seq<byte>, bs: seq<Block>, i: nat)
    requires i < |bs|
  {
    HeaderOf(m, bs[i])
  }

  /** Where block `i` starts; the end of the last block for `i == |bs|`. */
  function Boundary(bs: seq<Block>, i: nat): nat
    requires i <= |bs|
  {
    if i == 0 then 0 else bs[i - 1].End()
  }

  predicate Link(bs: seq<Block>, i: nat)
    requires i < |bs|
  {
    bs[i].size >= MIN_ALLOC_SIZE && bs[i].off == Boundary(bs, i)
  }

  /** The blocks follow each other without gaps, from offset 0. */
  predicate Chained(bs: seq<Block>) {
    forall i :: 0 <= i < |bs| ==> Link(bs, i)
  }

  /** The bytes [0, used) are exactly the blocks `bs`, one after the other. */
  predicate Tiles(m: seq<byte>, used: nat, bs: seq<Block>) {
    && used <= |m|
    && used == Boundary(bs, |bs|)
    && Chained(bs)
    && forall i :: 0 <= i < |bs| ==> HeaderAt(m, bs, i)
  }

  /** The heap is configured and its bytes form a tiling. */
  ghost predicate Tiled(h: HeapState) {
    Configured(h) && exists bs :: Tiles(h.mem, h.used, bs)
  }

  /** Blocks lie in address order and do not overlap. */
  lemma {:induction false} Ordered(bs: seq<Block>, i: nat, j: nat)
    requires Chained(bs) && i < j <= |bs|
    ensures bs[i].End() <= Boundary(bs, j)
  {
    assert Link(bs, j - 1);
    if i == j - 1 {
    } else {
      Ordered(bs, i, j - 1);
    }
  }

  /** The first free block from index `k` on that has room for `total` bytes, or |bs|. */
  function FirstFit(bs: seq<Block>, total: nat, k: nat): (j: nat)
    requires k <= |bs|
    ensures k <= j <= |bs|
    ensures forall i :: k <= i < j ==> bs[i].live || bs[i].size < total
    ensures j < |bs| ==> !bs[j].live && bs[j].size >= total
    decreases |bs| - k
  {
    if k == |bs| || (!bs[k].live && bs[k].size >= total) then k else FirstFit(bs, total, k + 1)
  }

  lemma {:induction false} TiledIsWalkable(m: seq<byte>, used: nat, bs: seq<Block>, k: nat)
    requires Tiles(m, used, bs) && k <= |bs|
    ensures Walkable(m, used, Boundary(bs, k))
    decreases |bs| - k
  {
    if k == |bs| {
    } else {
      assert Link(bs, k) && HeaderAt(m, bs, k);
      Ordered(bs, k, |bs|);
      TiledIsWalkable(m, used, bs, k + 1);
    }
  }

  /** On a tiled heap the byte-level search loop is first fit over the blocks. */
  lemma {:induction false} WalkIsFirstFit(m: seq<byte>, used: nat, bs: seq<Block>, total: u32, k: nat)
    requires Tiles(m, used, bs) && k <= |bs|
    requires Walkable(m, used, Boundary(bs, k))
    ensures
      var j := FirstFit(bs, total, k);
      Walk(m, used, total, Boundary(bs, k)) == if j < |bs| then Fits(bs[j].off) else Full
    decreases |bs| - k
  {
    if k == |bs| {
    } else {
      assert Link(bs, k) && HeaderAt(m, bs, k);
      Ordered(bs, k, |bs|);
      if bs[k].live || bs[k].size < total {
        WalkIsFirstFit(m, used, bs, total, k + 1);
      }
    }
  }

  /** How many headers the search looks at from offset `off` on. */
  function WalkLength(m: seq<byte>, used: nat, total: u32, off: nat): nat
    requires used <= |m| && Walkable(m, used, off)
    decreases used - off
  {
    if off >= used then 0
    else if MagicAt(m, off) != ALLOC_MAGIC || (!UsedAt(m, off) && SizeAt(m, off) >= total) then 1
    else 1 + WalkLength(m, used, total, off + SizeAt(m, off))
  }

  lemma {:induction false} WalkIsShortFrom(m: seq<byte>, used: nat, bs: seq<Block>, total: u32, k: nat)
    requires Tiles(m, used, bs) && k <= |bs| && Walkable(m, used, Boundary(bs, k))
    ensures MIN_ALLOC_SIZE * WalkLength(m, used, total, Boundary(bs, k)) <= used - Boundary(bs, k)
    decreases |bs| - k
  {
    if k == |bs| {
    } else {
      assert Link(bs, k) && HeaderAt(m, bs, k);
      Ordered(bs, k, |bs|);
      if bs[k].live || bs[k].size < total {
        WalkIsShortFrom(m, used, bs, total, k + 1);
      }
    }
  }

  /** On a tiled heap the search looks at no more than one header per 32 bytes in use. */
  lemma WalkIsShort(h: HeapState, total: u32)
    requires Tiled(h)
    ensures Walkable(h.mem, h.used, 0) && MIN_ALLOC_SIZE * WalkLength(h.mem, h.used, total, 0) <= h.used
  {
    var bs :| Tiles(h.mem, h.used, bs);
    TiledIsWalkable(h.mem, h.used, bs, 0);
    WalkIsShortFrom(h.mem, h.used, bs, total, 0);
  }
}
