/** The heap bytes as a list of blocks: the tiling is unique, and kmalloc and kfree on bytes
    act as first-fit allocation and release on the list. */
module HeapBlocks {
  import opened Words
  import opened Heap

  // ---------------------------------------------------------------- parsing the bytes

  /** The blocks read off the headers from offset `off` on. */
  function Parse(m: seq<byte>, used: nat, off: nat): seq<Block>
    requires used <= |m| && Walkable(m, used, off)
    decreases used - off
  {
    if off >= used || MagicAt(m, off) != ALLOC_MAGIC then []
    else [Block(off, SizeAt(m, off), UsedAt(m, off))] + Parse(m, used, off + SizeAt(m, off))
  }

  /** A tiling is what the bytes parse to, so there is at most one. */
  lemma {:induction false} ParseIsTiling(m: seq<byte>, used: nat, bs: seq<Block>, k: nat)
    requires Tiles(m, used, bs) && k <= |bs|
    ensures Walkable(m, used, Boundary(bs, k))
    ensures Parse(m, used, Boundary(bs, k)) == bs[k..]
    decreases |bs| - k
  {
    TiledIsWalkable(m, used, bs, k);
    if k == |bs| {
    } else {
      assert Link(bs, k) && HeaderAt(m, bs, k);
      Ordered(bs, k, |bs|);
      ParseIsTiling(m, used, bs, k + 1);
      assert bs[k..] == [bs[k]] + bs[k + 1..];
    }
  }

  // ---------------------------------------------------------------- byte updates that keep a tiling

  /** Headers are pairwise disjoint byte ranges, and lie below `used`. */
  lemma HeadersApart(bs: seq<Block>, i: nat, j: nat)
    requires Chained(bs) && i < |bs| && j < |bs| && i != j
    ensures bs[i].Payload() <= bs[j].off || bs[j].Payload() <= bs[i].off
  {
    assert Link(bs, i) && Link(bs, j);
    if i < j { Ordered(bs, i, j); } else { Ordered(bs, j, i); }
  }

  /** A header depends on its own 12 bytes only. */
  lemma HeaderFrame(m: seq<byte>, m': seq<byte>, b: Block)
    requires HeaderOf(m, b) && |m'| == |m|
    requires forall k :: b.off <= k < b.Payload() ==> m'[k] == m[k]
    ensures HeaderOf(m', b)
  {
  }

  /** Chaining depends on offsets and sizes only. */
  lemma SameShape(bs: seq<Block>, bs': seq<Block>)
    requires Chained(bs) && |bs'| == |bs|
    requires forall i :: 0 <= i < |bs| ==> bs'[i].off == bs[i].off && bs'[i].size == bs[i].size
    ensures Chained(bs') && Boundary(bs', |bs'|) == Boundary(bs, |bs|)
  {
    forall i | 0 <= i < |bs'|
      ensures Link(bs', i)
    {
      assert Link(bs, i);
    }
  }

  lemma HeaderFlip(m: seq<byte>, b: Block, v: byte)
    requires HeaderOf(m, b)
    ensures HeaderOf(m[b.off + 8 := v], b.(live := v != 0))
  {
  }

  /** Writing the `used` byte of a header changes the `live` flag of that block only. */
  lemma TilesFlip(m: seq<byte>, used: nat, bs: seq<Block>, j: nat, v: byte)
    requires Tiles(m, used, bs) && j < |bs|
    ensures HeaderAt(m, bs, j)
    ensures Tiles(m[bs[j].off + 8 := v], used, bs[j := bs[j].(live := v != 0)])
  {
    assert HeaderAt(m, bs, j);
    var m' := m[bs[j].off + 8 := v];
    var bs' := bs[j := bs[j].(live := v != 0)];
    HeaderFlip(m, bs[j], v);
    SameShape(bs, bs');
    forall i | 0 <= i < |bs'|
      ensures HeaderAt(m', bs', i)
    {
      if i != j {
        assert HeaderAt(m, bs, i);
        HeadersApart(bs, i, j);
        HeaderFrame(m, m', bs[i]);
      }
    }
  }

  /** Writing a header at `used` appends one live block. */
  lemma TilesAppend(m: seq<byte>, used: nat, bs: seq<Block>, total: u32)
    requires Tiles(m, used, bs) && total >= MIN_ALLOC_SIZE && used + total <= |m|
    ensures Tiles(WriteHeader(m, used, total), used + total, bs + [Block(used, total, true)])
  {
    var m' := WriteHeader(m, used, total);
    var bs' := bs + [Block(used, total, true)];
    forall i | 0 <= i < |bs'|
      ensures Link(bs', i) && HeaderAt(m', bs', i)
    {
      if i < |bs| {
        assert Link(bs, i) && HeaderAt(m, bs, i);
        Ordered(bs, i, |bs|);
        HeaderFrame(m, m', bs[i]);
      }
    }
  }

  /** Writes inside the payload of block `j` keep the tiling. */
  lemma TilesPayload(m: seq<byte>, m': seq<byte>, used: nat, bs: seq<Block>, j: nat)
    requires Tiles(m, used, bs) && j < |bs|
    requires SameOutside(m, m', bs[j].Payload(), bs[j].End())
    ensures Tiles(m', used, bs)
  {
    forall i | 0 <= i < |bs|
      ensures HeaderAt(m', bs, i)
    {
      assert HeaderAt(m, bs, i);
      PayloadApart(bs, i, j);
      HeaderFrame(m, m', bs[i]);
    }
  }

  /** No payload meets a header. */
  lemma PayloadApart(bs: seq<Block>, i: nat, j: nat)
    requires Chained(bs) && i < |bs| && j < |bs|
    ensures bs[i].Payload() <= bs[j].Payload() || bs[j].End() <= bs[i].off
  {
    assert Link(bs, i) && Link(bs, j);
    if i < j { Ordered(bs, i, j); } else if j < i { Ordered(bs, j, i); }
  }

  // ---------------------------------------------------------------- allocation on blocks

  /** The block size that serves a request of `n` bytes. */
  function Need(n: nat): nat {
    if n + HEADER_SIZE < MIN_ALLOC_SIZE then MIN_ALLOC_SIZE else n + HEADER_SIZE
  }

  /** First-fit allocation in a heap of `size` bytes: the new blocks and the chosen index. */
  function Allocate(bs: seq<Block>, size: nat, n: nat): (seq<Block>, Option<nat>) {
    var j := FirstFit(bs, Need(n), 0);
    var used := Boundary(bs, |bs|);
    if n == 0 || n > size then (bs, None)
    else if j < |bs| then (bs[j := bs[j].(live := true)], Some(j))
    else if used + Need(n) > size then (bs, None)
    else (bs + [Block(used, Need(n), true)], Some(|bs|))
  }

  /** The out-of-memory test of kmalloc, in 32-bit arithmetic, gives the true answer. */
  predicate GuardCorrect(size: u32, used: u32, n: u32) {
    Add32(used, TotalSize(n)) > size <==> used + Need(n) > size
  }

  /** The test is right for every fill level and every admitted request exactly when twice the
      heap size plus a header stays below 2^32: the bound asked of a configured heap is needed. */
  lemma GuardIsExact(size: u32)
    ensures (forall used: u32, n: u32 :: used <= size && 0 < n <= size ==> GuardCorrect(size, used, n))
       <==> 2 * size + HEADER_SIZE < U32_LIMIT
  {
    if 2 * size + HEADER_SIZE >= U32_LIMIT {
      assert !GuardCorrect(size, size, size);
    }
  }

  function PointerTo(start: u32, b: Block): nat {
    start + b.Payload()
  }

  /** The search of kmalloc on a tiled heap, in terms of the blocks. */
  lemma KmallocOutcome(h: HeapState, bs: seq<Block>, n: u32)
    requires Configured(h) && Tiles(h.mem, h.used, bs) && 0 < n <= h.size
    ensures Walkable(h.mem, h.used, 0) && h.used + Need(n) < U32_LIMIT
    ensures
      var j := FirstFit(bs, Need(n), 0);
      Kmalloc(h, n) == Place(h, Need(n), if j < |bs| then assert HeaderAt(h.mem, bs, j); Fits(bs[j].off) else Full)
  {
    TiledIsWalkable(h.mem, h.used, bs, 0);
    NoWrap(h, n);
    assert TotalSize(n) == Need(n);
    WalkIsFirstFit(h.mem, h.used, bs, Need(n), 0);
  }

  predicate SameOutside(m: seq<byte>, m': seq<byte>, lo: nat, hi: nat) {
    |m'| == |m| && forall a :: 0 <= a < |m| && !(lo <= a < hi) ==> m'[a] == m[a]
  }

  /** `h'` is `h` with other block contents: tiled by `bs'`, and no byte changed outside the
      header of block `i`. */
  ghost predicate Updates(h: HeapState, h': HeapState, bs': seq<Block>, i: nat) {
    && h'.start == h.start && h'.size == h.size && Configured(h')
    && Tiles(h'.mem, h'.used, bs')
    && i < |bs'| && SameOutside(h.mem, h'.mem, bs'[i].off, bs'[i].Payload())
  }

  lemma PlaceReuses(h: HeapState, bs: seq<Block>, total: u32, j: nat)
    requires Configured(h) && Tiles(h.mem, h.used, bs) && j < |bs|
    requires total >= MIN_ALLOC_SIZE && h.used + total < U32_LIMIT
    ensures HeaderAt(h.mem, bs, j)
    ensures var (h', p) := Place(h, total, Fits(bs[j].off));
      p == PointerTo(h.start, bs[j]) && Updates(h, h', bs[j := bs[j].(live := true)], j)
  {
    TilesFlip(h.mem, h.used, bs, j, 1);
  }

  lemma PlaceAppends(h: HeapState, bs: seq<Block>, total: u32)
    requires Configured(h) && Tiles(h.mem, h.used, bs)
    requires total >= MIN_ALLOC_SIZE && h.used + total <= h.size
    ensures var (h', p) := Place(h, total, Full);
      && p == h.start + h.used + HEADER_SIZE && h'.used == h.used + total
      && Updates(h, h', bs + [Block(h.used, total, true)], |bs|)
  {
    TilesAppend(h.mem, h.used, bs, total);
  }

  /** kmalloc on bytes is first-fit allocation on blocks, and writes only the chosen header. */
  lemma KmallocRefines(h: HeapState, bs: seq<Block>, n: u32)
    requires Configured(h) && Tiles(h.mem, h.used, bs)
    ensures Walkable(h.mem, h.used, 0)
    ensures
      var (h', p) := Kmalloc(h, n);
      var (bs', r) := Allocate(bs, h.size, n);
      match r
      case None => p == NULL && h' == h && bs' == bs
      case Some(i) => Updates(h, h', bs', i) && p == PointerTo(h.start, bs'[i])
  {
    TiledIsWalkable(h.mem, h.used, bs, 0);
    if 0 < n <= h.size {
      KmallocOutcome(h, bs, n);
      var j := FirstFit(bs, Need(n), 0);
      if j < |bs| {
        PlaceReuses(h, bs, Need(n), j);
      } else if h.used + Need(n) <= h.size {
        PlaceAppends(h, bs, Need(n));
      }
    }
  }

  /** kfree of a pointer to a block's payload succeeds and marks exactly that block free,
      whether or not it was live. */
  lemma KfreeRefines(h: HeapState, bs: seq<Block>, j: nat)
    requires Configured(h) && Tiles(h.mem, h.used, bs) && j < |bs|
    ensures var p := PointerTo(h.start, bs[j]);
      && 0 < p < U32_LIMIT && Readable(h, p)
      && var (h', status) := Kfree(h, p);
         status == 0 && Updates(h, h', bs[j := bs[j].(live := false)], j)
  {
    assert Link(bs, j) && HeaderAt(h.mem, bs, j);
    Ordered(bs, j, |bs|);
    TilesFlip(h.mem, h.used, bs, j, 0);
  }

  /** kmalloc keeps a tiling. */
  lemma KmallocKeepsTiled(h: HeapState, n: u32)
    requires Tiled(h)
    ensures Walkable(h.mem, h.used, 0) && Tiled(Kmalloc(h, n).0)
  {
    var bs :| Tiles(h.mem, h.used, bs);
    KmallocRefines(h, bs, n);
  }

  /** `ptr` is the payload of some block, live or free. */
  ghost predicate IsPayload(h: HeapState, ptr: u32) {
    exists bs, i :: PayloadOf(h, bs, i, ptr)
  }

  predicate PayloadOf(h: HeapState, bs: seq<Block>, i: int, ptr: u32) {
    Tiles(h.mem, h.used, bs) && 0 <= i < |bs| && ptr == PointerTo(h.start, bs[i])
  }

  /** kfree of the payload of any block keeps a tiling. */
  lemma KfreeKeepsTiled(h: HeapState, ptr: u32)
    requires Configured(h) && IsPayload(h, ptr)
    ensures Readable(h, ptr) && Tiled(Kfree(h, ptr).0)
  {
    var bs, i :| PayloadOf(h, bs, i, ptr);
    KfreeRefines(h, bs, i);
  }

  // ---------------------------------------------------------------- exact outcome of kmalloc

  predicate Suitable(b: Block, n: nat) {
    !b.live && b.size >= Need(n)
  }

  predicate NoneSuitable(bs: seq<Block>, n: nat) {
    forall i :: 0 <= i < |bs| ==> !Suitable(bs[i], n)
  }

  /** Among the suitable blocks the first one in the list has the lowest address. */
  lemma FirstFitIsLowest(bs: seq<Block>, n: nat, k: nat)
    requires Chained(bs) && k < |bs| && Suitable(bs[k], n)
    ensures var j := FirstFit(bs, Need(n), 0);
      j < |bs| && Suitable(bs[j], n) && bs[j].off <= bs[k].off
  {
    var j := FirstFit(bs, Need(n), 0);
    assert Link(bs, j) && Link(bs, k);
    if j < k { Ordered(bs, j, k); }
  }

  /** For an admitted request: the pointer returned is the payload of the lowest-addressed
      suitable block; without one it is a new block at the end; and NULL exactly when there is
      no suitable block and no room for a new one. */
  lemma KmallocExact(h: HeapState, bs: seq<Block>, n: u32)
    requires Configured(h) && Tiles(h.mem, h.used, bs) && 0 < n <= h.size
    ensures Walkable(h.mem, h.used, 0)
    ensures
      var p := Kmalloc(h, n).1;
      && (p == NULL <==> NoneSuitable(bs, n) && h.used + Need(n) > h.size)
      && (p != NULL && NoneSuitable(bs, n) ==> p == h.start + h.used + HEADER_SIZE)
      && (p != NULL && !NoneSuitable(bs, n) ==>
            exists i :: 0 <= i < |bs| && Suitable(bs[i], n) && p == PointerTo(h.start, bs[i])
              && forall k :: 0 <= k < |bs| && Suitable(bs[k], n) ==> bs[i].off <= bs[k].off)
  {
    KmallocOutcome(h, bs, n);
    forall k | 0 <= k < |bs| && Suitable(bs[k], n)
      ensures bs[FirstFit(bs, Need(n), 0)].off <= bs[k].off
    {
      FirstFitIsLowest(bs, n, k);
    }
  }

  // ---------------------------------------------------------------- the bytes

  /** The four bytes at `o` are the magic word, 0xDEADBEEF. */
  predicate MagicBytes(m: seq<byte>, o: nat)
    requires o + 4 <= |m|
  {
    m[o] == 0xEF && m[o + 1] == 0xBE && m[o + 2] == 0xAD && m[o + 3] == 0xDE
  }

  lemma MagicIsBytes(m: seq<byte>, o: nat)
    requires o + HEADER_SIZE <= |m|
    ensures MagicAt(m, o) == ALLOC_MAGIC <==> MagicBytes(m, o)
  {
    var (a, b, c, d) := (m[o] as int, m[o + 1] as int, m[o + 2] as int, m[o + 3] as int);
    assert MagicAt(m, o) == a + 0x100 * (b + 0x100 * (c + 0x100 * d));
  }

  /** kmalloc refuses a request of nothing, and one larger than the heap. */
  lemma KmallocRefuses(h: HeapState, n: u32)
    requires Configured(h) && Walkable(h.mem, h.used, 0) && (n == 0 || n > h.size)
    ensures Kmalloc(h, n) == (h, 0)
  {
  }

  /** A free block that is large enough: for the request and 12 bytes, and for 32. */
  predicate Serves(b: Block, n: nat) {
    !b.live && b.size >= n + 12 && b.size >= 32
  }

  lemma ServesIsSuitable(b: Block, n: nat)
    ensures Serves(b, n) <==> Suitable(b, n)
  {
  }

  /** Without a suitable block kmalloc writes a header of nine bytes at the end: the magic word,
      the size (12 more than the request, at least 32) and the used byte. */
  lemma KmallocAppends(h: HeapState, bs: seq<Block>, n: u32)
    requires Configured(h) && Tiles(h.mem, h.used, bs) && 0 < n <= h.size
    requires forall i :: 0 <= i < |bs| ==> !Serves(bs[i], n)
    ensures Walkable(h.mem, h.used, 0)
    ensures
      var (h', p) := Kmalloc(h, n);
      var (o, total) := (h.used, if n < 20 then 32 else n + 12);
      if o + total > h.size then h' == h && p == 0
      else
        && p == h.start + o + 12 && h'.start == h.start && h'.size == h.size && h'.used == o + total
        && MagicBytes(h'.mem, o) && h'.mem[o + 8] == 1
        && (h'.mem[o + 4] as int) + 0x100 * ((h'.mem[o + 5] as int) + 0x100 * ((h'.mem[o + 6] as int) + 0x100 * (h'.mem[o + 7] as int))) == total
        && SameOutside(h.mem, h'.mem, o, o + 9)
  {
    KmallocOutcome(h, bs, n);
    var (o, total) := (h.used, if n < 20 then 32 else n + 12);
    forall i | 0 <= i < |bs| ensures !Suitable(bs[i], n) { ServesIsSuitable(bs[i], n); }
    assert FirstFit(bs, Need(n), 0) == |bs|;
    if o + total <= h.size {
      var m := WriteHeader(h.mem, o, total);
      MagicIsBytes(m, o);
      assert SizeAt(m, o) == total;
    }
  }

  /** Otherwise it sets the used byte of the lowest suitable block, and no other byte. */
  lemma KmallocReuses(h: HeapState, bs: seq<Block>, n: u32, i: nat)
    requires Configured(h) && Tiles(h.mem, h.used, bs) && 0 < n <= h.size
    requires i < |bs| && Serves(bs[i], n) && forall k :: 0 <= k < i ==> !Serves(bs[k], n)
    ensures Walkable(h.mem, h.used, 0) && bs[i].off + 12 <= |h.mem|
    ensures Kmalloc(h, n) == (h.(mem := h.mem[bs[i].off + 8 := 1]), h.start + bs[i].off + 12)
  {
    KmallocOutcome(h, bs, n);
    forall k | 0 <= k <= i ensures Serves(bs[k], n) <==> Suitable(bs[k], n) { ServesIsSuitable(bs[k], n); }
    assert FirstFit(bs, Need(n), 0) == i;
    assert HeaderAt(h.mem, bs, i);
  }

  /** The blocks in front of a damaged header. */
  predicate LeadsTo(m: seq<byte>, bs: seq<Block>) {
    Chained(bs) && forall i :: 0 <= i < |bs| ==> HeaderAt(m, bs, i)
  }

  lemma {:induction false} WalkToDamage(m: seq<byte>, used: nat, bs: seq<Block>, n: nat, k: nat)
    requires used <= |m| && LeadsTo(m, bs) && Boundary(bs, |bs|) < used && k <= |bs| && NoneSuitable(bs, n)
    requires Walkable(m, used, Boundary(bs, k)) && Need(n) < U32_LIMIT
    requires Boundary(bs, |bs|) + HEADER_SIZE <= |m| && !MagicBytes(m, Boundary(bs, |bs|))
    ensures Walk(m, used, Need(n), Boundary(bs, k)) == Corrupt
    decreases |bs| - k
  {
    if k == |bs| {
      MagicIsBytes(m, Boundary(bs, k));
    } else {
      assert Link(bs, k) && HeaderAt(m, bs, k) && !Suitable(bs[k], n);
      Ordered(bs, k, |bs|);
      WalkToDamage(m, used, bs, n, k + 1);
    }
  }

  /** On a heap with a damaged header kmalloc returns NULL and changes nothing, unless a block in
      front of the damage is suitable. */
  lemma DamageStopsKmalloc(h: HeapState, bs: seq<Block>, n: u32)
    requires Configured(h) && Walkable(h.mem, h.used, 0) && LeadsTo(h.mem, bs) && NoneSuitable(bs, n)
    requires Boundary(bs, |bs|) < h.used && Boundary(bs, |bs|) + HEADER_SIZE <= h.size
    requires !MagicBytes(h.mem, Boundary(bs, |bs|))
    ensures Kmalloc(h, n) == (h, 0)
  {
    if 0 < n <= h.size {
      NoWrap(h, n);
      assert TotalSize(n) == Need(n);
      WalkToDamage(h.mem, h.used, bs, n, 0);
    }
  }

  /** kfree for every pointer: NULL is accepted, a pointer without the magic word twelve bytes
      before it is rejected, and otherwise the used byte, four before it, is cleared. */
  lemma KfreeExact(h: HeapState, ptr: u32)
    requires Configured(h) && Readable(h, ptr)
    ensures ptr == 0 ==> Kfree(h, ptr) == (h, 0)
    ensures ptr != 0 ==>
      && 12 <= ptr - h.start <= |h.mem|
      && Kfree(h, ptr) == if MagicBytes(h.mem, ptr - h.start - 12) then (h.(mem := h.mem[ptr - h.start - 4 := 0]), 0)
                          else (h, -1)
  {
    if ptr != 0 { MagicIsBytes(h.mem, ptr - h.start - 12); }
  }
}
