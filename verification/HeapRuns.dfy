/** Whole runs of the kernel heap: clients allocate, free pointers they were given, also twice,
    and write anywhere inside the blocks they hold. */
module HeapRuns {
  import opened Words
  import opened Heap
  import opened HeapBlocks

  datatype Op = Malloc(n: u32) | Free(ptr: u32) | Store(addr: u32, v: byte)

  /** The heap together with the clients' view: each held pointer with the size asked for, and
      all pointers ever returned. */
  datatype Sys = Sys(heap: HeapState, live: map<u32, u32>, given: set<u32>)

  /** Address `a` lies in the memory that the client asked for at `p`. */
  predicate Within(live: map<u32, u32>, p: u32, a: int) {
    p in live && p <= a < p + live[p]
  }

  /** Address `a` lies in the payload of live block `i`, requested or slack. */
  predicate InLiveBlock(h: HeapState, bs: seq<Block>, i: int, a: int) {
    && Tiles(h.mem, h.used, bs) && 0 <= i < |bs| && bs[i].live
    && bs[i].Payload() <= a - h.start < bs[i].End()
  }

  /** Clients free NULL or any pointer ever returned, held or not, and write inside the payloads
      of live blocks. */
  ghost predicate Legal(s: Sys, op: Op) {
    match op
    case Malloc(_) => true
    case Free(p) => p == NULL || p in s.given
    case Store(a, _) => exists bs, i :: InLiveBlock(s.heap, bs, i, a)
  }

  /** One step.  Where the C code would leave the heap region nothing is said about the
      outcome; RunInvariant shows that this never happens. */
  ghost predicate Next(s: Sys, op: Op, s': Sys) {
    match op
    case Malloc(n) =>
      Configured(s.heap) && Walkable(s.heap.mem, s.heap.used, 0) ==>
        var (h, p) := Kmalloc(s.heap, n);
        s' == if p == NULL then s.(heap := h) else Sys(h, s.live[p := n], s.given + {p})
    case Free(p) =>
      Configured(s.heap) && Readable(s.heap, p) ==>
        s' == s.(heap := Kfree(s.heap, p).0, live := s.live - {p})
    case Store(a, v) =>
      s.heap.start <= a < s.heap.start + |s.heap.mem| ==>
        s' == s.(heap := s.heap.(mem := s.heap.mem[a - s.heap.start := v]))
  }

  ghost predicate Initial(s: Sys) {
    Configured(s.heap) && s.heap.used == 0 && s.live == map[] && s.given == {}
  }

  ghost predicate Run(trace: seq<Sys>, ops: seq<Op>) {
    && |trace| == |ops| + 1
    && Initial(trace[0])
    && forall i :: 0 <= i < |ops| ==> StepAt(trace, ops, i)
  }

  ghost predicate StepAt(trace: seq<Sys>, ops: seq<Op>, i: nat)
    requires |trace| == |ops| + 1 && i < |ops|
  {
    Legal(trace[i], ops[i]) && Next(trace[i], ops[i], trace[i + 1])
  }

  // ---------------------------------------------------------------- the invariant

  /** Held pointers are exactly the payloads of live blocks, each with room for the request. */
  ghost predicate Agrees(start: u32, live: map<u32, u32>, bs: seq<Block>) {
    && (forall i :: 0 <= i < |bs| ==> (bs[i].live <==> PointerTo(start, bs[i]) in live))
    && (forall p :: p in live ==> exists i :: Owns(start, live, bs, i, p))
  }

  ghost predicate Owns(start: u32, live: map<u32, u32>, bs: seq<Block>, i: int, p: u32)
    requires p in live
  {
    0 <= i < |bs| && p == PointerTo(start, bs[i]) && live[p] + HEADER_SIZE <= bs[i].size
  }

  /** `p` is the payload of block `i`, live or free. */
  predicate PointsAt(start: u32, bs: seq<Block>, i: int, p: u32) {
    0 <= i < |bs| && p == PointerTo(start, bs[i])
  }

  /** Every pointer ever returned still is the payload of a block. */
  ghost predicate GivenOk(start: u32, given: set<u32>, bs: seq<Block>) {
    forall p :: p in given ==> exists i :: PointsAt(start, bs, i, p)
  }

  ghost predicate Inv(s: Sys, bs: seq<Block>) {
    && Configured(s.heap) && Tiles(s.heap.mem, s.heap.used, bs)
    && Agrees(s.heap.start, s.live, bs) && GivenOk(s.heap.start, s.given, bs)
  }

  lemma DistinctPointers(start: u32, bs: seq<Block>, i: nat, j: nat)
    requires Chained(bs) && i < |bs| && j < |bs| && PointerTo(start, bs[i]) == PointerTo(start, bs[j])
    ensures i == j
  {
    if i != j { HeadersApart(bs, i, j); }
  }

  /** Ownership carries over to lists that keep the owner's offset and size. */
  lemma OwnersStay(start: u32, live: map<u32, u32>, bs: seq<Block>, live': map<u32, u32>, bs': seq<Block>, p: u32)
    requires Agrees(start, live, bs) && p in live && p in live' && live'[p] == live[p]
    requires |bs'| >= |bs|
    requires forall i :: 0 <= i < |bs| ==> bs'[i].off == bs[i].off && bs'[i].size == bs[i].size
    ensures exists i :: Owns(start, live', bs', i, p)
  {
    var i :| Owns(start, live, bs, i, p);
    assert Owns(start, live', bs', i, p);
  }

  lemma AgreesAfterMalloc(start: u32, live: map<u32, u32>, bs: seq<Block>, size: nat, n: u32, q: u32)
    requires Agrees(start, live, bs)
    requires var (bs', r) := Allocate(bs, size, n);
      r.Some? && r.value < |bs'| && Chained(bs') && q == PointerTo(start, bs'[r.value])
    ensures Agrees(start, live[q := n], Allocate(bs, size, n).0)
  {
    var (bs', r) := Allocate(bs, size, n);
    var k, live' := r.value, live[q := n];
    forall i | 0 <= i < |bs'|
      ensures bs'[i].live <==> PointerTo(start, bs'[i]) in live'
    {
      if i != k && PointerTo(start, bs'[i]) == q { DistinctPointers(start, bs', i, k); }
    }
    forall p | p in live'
      ensures exists i :: Owns(start, live', bs', i, p)
    {
      if p == q {
        assert Owns(start, live', bs', k, p);
      } else {
        OwnersStay(start, live, bs, live', bs', p);
      }
    }
  }

  lemma AgreesAfterFree(start: u32, live: map<u32, u32>, bs: seq<Block>, k: nat, q: u32)
    requires Agrees(start, live, bs) && Chained(bs) && k < |bs| && q == PointerTo(start, bs[k])
    ensures Agrees(start, live - {q}, bs[k := bs[k].(live := false)])
  {
    var bs', live' := bs[k := bs[k].(live := false)], live - {q};
    forall i | 0 <= i < |bs'|
      ensures bs'[i].live <==> PointerTo(start, bs'[i]) in live'
    {
      if i != k && PointerTo(start, bs[i]) == q { DistinctPointers(start, bs, i, k); }
    }
    forall p | p in live'
      ensures exists i :: Owns(start, live', bs', i, p)
    {
      OwnersStay(start, live, bs, live', bs', p);
    }
  }

  /** Given pointers stay payloads in any list that keeps the blocks' offsets. */
  lemma GivenStays(start: u32, given: set<u32>, bs: seq<Block>, bs': seq<Block>)
    requires GivenOk(start, given, bs) && |bs'| >= |bs|
    requires forall i :: 0 <= i < |bs| ==> bs'[i].off == bs[i].off
    ensures GivenOk(start, given, bs')
  {
    forall p | p in given ensures exists i :: PointsAt(start, bs', i, p) {
      var i :| PointsAt(start, bs, i, p);
      assert PointsAt(start, bs', i, p);
    }
  }

  lemma GivenAfterMalloc(start: u32, given: set<u32>, bs: seq<Block>, k: nat, q: u32)
    requires GivenOk(start, given, bs) && PointsAt(start, bs, k, q)
    ensures GivenOk(start, given + {q}, bs)
  {
    forall p | p in given + {q} ensures exists i :: PointsAt(start, bs, i, p) {
      if p != q { var i :| PointsAt(start, bs, i, p); }
    }
  }

  // ---------------------------------------------------------------- steps keep the invariant

  /** The blocks after one step. */
  ghost function BlocksAfter(start: u32, size: nat, bs: seq<Block>, op: Op): seq<Block> {
    match op
    case Malloc(n) => Allocate(bs, size, n).0
    case Free(p) => seq(|bs|, i requires 0 <= i < |bs| => bs[i].(live := bs[i].live && PointerTo(start, bs[i]) != p))
    case Store(_, _) => bs
  }

  lemma MallocStep(s: Sys, bs: seq<Block>, n: u32, s': Sys)
    requires Inv(s, bs) && Next(s, Malloc(n), s')
    ensures Inv(s', Allocate(bs, s.heap.size, n).0)
    ensures s'.heap.start == s.heap.start && s'.heap.size == s.heap.size
  {
    var (bs', r) := Allocate(bs, s.heap.size, n);
    KmallocRefines(s.heap, bs, n);
    if r.Some? {
      var q := Kmalloc(s.heap, n).1;
      AgreesAfterMalloc(s.heap.start, s.live, bs, s.heap.size, n, q);
      GivenStays(s.heap.start, s.given, bs, bs');
      GivenAfterMalloc(s.heap.start, s.given, bs', r.value, q);
    }
  }

  lemma FreeStep(s: Sys, bs: seq<Block>, q: u32, s': Sys)
    requires Inv(s, bs) && Legal(s, Free(q)) && Next(s, Free(q), s')
    ensures Inv(s', BlocksAfter(s.heap.start, s.heap.size, bs, Free(q)))
    ensures s'.heap.start == s.heap.start && s'.heap.size == s.heap.size
  {
    var start := s.heap.start;
    var bs' := BlocksAfter(start, s.heap.size, bs, Free(q));
    if q == NULL {
      assert s.live - {q} == s.live by { NullNotLive(start, s.live, bs); }
      assert bs' == bs;
    } else {
      var k :| PointsAt(start, bs, k, q);
      KfreeRefines(s.heap, bs, k);
      AgreesAfterFree(start, s.live, bs, k, q);
      GivenStays(start, s.given, bs, bs');
      forall i | 0 <= i < |bs| && i != k ensures PointerTo(start, bs[i]) != q {
        if PointerTo(start, bs[i]) == q { DistinctPointers(start, bs, i, k); }
      }
      assert bs' == bs[k := bs[k].(live := false)];
    }
  }

  lemma NullNotLive(start: u32, live: map<u32, u32>, bs: seq<Block>)
    requires Agrees(start, live, bs)
    ensures NULL !in live
  {
  }

  /** What a client holds lies inside the used heap. */
  lemma HeldIsInside(s: Sys, bs: seq<Block>, p: u32, a: int)
    requires Inv(s, bs) && Within(s.live, p, a)
    ensures s.heap.start <= a < s.heap.start + s.heap.used
  {
    var k :| Owns(s.heap.start, s.live, bs, k, p);
    Ordered(bs, k, |bs|);
  }

  /** A legal write goes to the payload of a live block of the tiling. */
  lemma BlockOfStore(s: Sys, bs: seq<Block>, a: u32) returns (k: nat)
    requires Inv(s, bs) && exists bs', i :: InLiveBlock(s.heap, bs', i, a)
    ensures k < |bs| && bs[k].live && bs[k].Payload() <= a - s.heap.start < bs[k].End() <= s.heap.used
  {
    var bs', i :| InLiveBlock(s.heap, bs', i, a);
    ParseIsTiling(s.heap.mem, s.heap.used, bs, 0);
    ParseIsTiling(s.heap.mem, s.heap.used, bs', 0);
    assert bs == bs[0..] && bs' == bs'[0..];
    k := i;
    Ordered(bs, k, |bs|);
  }

  lemma StoreStep(s: Sys, bs: seq<Block>, a: u32, v: byte, s': Sys)
    requires Inv(s, bs) && Legal(s, Store(a, v)) && Next(s, Store(a, v), s')
    ensures Inv(s', bs)
    ensures s'.heap.start == s.heap.start && s'.heap.size == s.heap.size
  {
    var k := BlockOfStore(s, bs, a);
    assert s' == s.(heap := s.heap.(mem := s.heap.mem[a - s.heap.start := v]));
    TilesPayload(s.heap.mem, s'.heap.mem, s.heap.used, bs, k);
  }

  /** The blocks that the heap bytes parse to. */
  ghost function BlocksOf(s: Sys): seq<Block> {
    if Configured(s.heap) && Walkable(s.heap.mem, s.heap.used, 0) then Parse(s.heap.mem, s.heap.used, 0) else []
  }

  lemma BlocksOfTiling(s: Sys, bs: seq<Block>)
    requires Inv(s, bs)
    ensures BlocksOf(s) == bs && Walkable(s.heap.mem, s.heap.used, 0)
  {
    ParseIsTiling(s.heap.mem, s.heap.used, bs, 0);
    assert bs[0..] == bs;
  }

  /** One legal step keeps the invariant and acts on the parsed blocks as `BlocksAfter`. */
  lemma StepInvariant(s: Sys, op: Op, s': Sys)
    requires Inv(s, BlocksOf(s)) && Legal(s, op) && Next(s, op, s')
    ensures Inv(s', BlocksOf(s'))
    ensures BlocksOf(s') == BlocksAfter(s.heap.start, s.heap.size, BlocksOf(s), op)
    ensures s'.heap.start == s.heap.start && s'.heap.size == s.heap.size
  {
    var bs := BlocksOf(s);
    var bs' := BlocksAfter(s.heap.start, s.heap.size, bs, op);
    match op {
      case Malloc(n) => MallocStep(s, bs, n, s');
      case Free(q) => FreeStep(s, bs, q, s');
      case Store(a, v) => StoreStep(s, bs, a, v, s');
    }
    BlocksOfTiling(s', bs');
  }

  /** In every run the bytes [0, used) parse as an exact tiling by magic-tagged blocks of at
      least 32 bytes that agrees with what clients hold; the region stays where it was. */
  lemma {:induction false} RunInvariant(trace: seq<Sys>, ops: seq<Op>, i: nat)
    requires Run(trace, ops) && i < |trace|
    ensures Inv(trace[i], BlocksOf(trace[i]))
    ensures trace[i].heap.start == trace[0].heap.start && trace[i].heap.size == trace[0].heap.size
  {
    if i == 0 {
      assert Inv(trace[0], []);
      BlocksOfTiling(trace[0], []);
    } else {
      RunInvariant(trace, ops, i - 1);
      assert StepAt(trace, ops, i - 1);
      StepInvariant(trace[i - 1], ops[i - 1], trace[i]);
    }
  }

  /** A run on block lists alone. */
  ghost predicate BlockRun(start: u32, size: nat, blocks: seq<seq<Block>>, ops: seq<Op>) {
    && |blocks| == |ops| + 1
    && blocks[0] == []
    && forall i :: 0 <= i < |ops| ==> BlockStepAt(start, size, blocks, ops, i)
  }

  ghost predicate BlockStepAt(start: u32, size: nat, blocks: seq<seq<Block>>, ops: seq<Op>, i: nat)
    requires |blocks| == |ops| + 1 && i < |ops|
  {
    blocks[i + 1] == BlocksAfter(start, size, blocks[i], ops[i])
  }

  ghost function BlocksAlong(trace: seq<Sys>): seq<seq<Block>> {
    seq(|trace|, i requires 0 <= i < |trace| => BlocksOf(trace[i]))
  }

  lemma RunStep(trace: seq<Sys>, ops: seq<Op>, i: nat)
    requires Run(trace, ops) && i < |ops|
    ensures BlocksOf(trace[i + 1]) ==
            BlocksAfter(trace[0].heap.start, trace[0].heap.size, BlocksOf(trace[i]), ops[i])
  {
    RunInvariant(trace, ops, i);
    var s, op, s' := trace[i], ops[i], trace[i + 1];
    assert Legal(s, op) && Next(s, op, s') by { assert StepAt(trace, ops, i); }
    StepInvariant(s, op, s');
  }

  /** Every run of the heap is a run on the block lists that its bytes parse to. */
  lemma RunOnBlocks(trace: seq<Sys>, ops: seq<Op>)
    requires Run(trace, ops)
    ensures BlockRun(trace[0].heap.start, trace[0].heap.size, BlocksAlong(trace), ops)
  {
    assert BlocksOf(trace[0]) == [] by { assert Inv(trace[0], []); BlocksOfTiling(trace[0], []); }
    forall i | 0 <= i < |ops|
      ensures BlockStepAt(trace[0].heap.start, trace[0].heap.size, BlocksAlong(trace), ops, i)
    {
      RunStep(trace, ops, i);
    }
  }

  /** In every run kmalloc never meets a header without the magic word. */
  lemma RunNeverCorrupt(trace: seq<Sys>, ops: seq<Op>, i: nat, total: u32)
    requires Run(trace, ops) && i < |trace|
    ensures var h := trace[i].heap;
      Configured(h) && Walkable(h.mem, h.used, 0) && Walk(h.mem, h.used, total, 0) != Corrupt
  {
    RunInvariant(trace, ops, i);
    var s := trace[i];
    BlocksOfTiling(s, BlocksOf(s));
    WalkIsFirstFit(s.heap.mem, s.heap.used, BlocksOf(s), total, 0);
  }

  // ---------------------------------------------------------------- separation and integrity

  /** In every run, what a client holds lies inside the used heap, away from every header and
      from everything else that is held. */
  lemma RunSeparation(trace: seq<Sys>, ops: seq<Op>, i: nat, p: u32, a: int)
    requires Run(trace, ops) && i < |trace| && Within(trace[i].live, p, a)
    ensures var s := trace[i];
      && s.heap.start <= a < s.heap.start + s.heap.used
      && (forall q :: q in s.live && q != p ==> !Within(s.live, q, a))
      && (forall b :: b in BlocksOf(s) ==> !(b.off <= a - s.heap.start < b.Payload()))
  {
    var s := trace[i];
    var bs := BlocksOf(s);
    RunInvariant(trace, ops, i);
    var k :| Owns(s.heap.start, s.live, bs, k, p);
    HeldIsInside(s, bs, p, a);
    forall q | q in s.live && q != p ensures !Within(s.live, q, a) {
      var j :| Owns(s.heap.start, s.live, bs, j, q);
      BlocksApart(bs, j, k);
    }
    forall b | b in bs ensures !(b.off <= a - s.heap.start < b.Payload()) {
      var j :| 0 <= j < |bs| && bs[j] == b;
      PayloadApart(bs, j, k);
    }
  }

  lemma BlocksApart(bs: seq<Block>, i: nat, j: nat)
    requires Chained(bs) && i < |bs| && j < |bs| && i != j
    ensures bs[i].End() <= bs[j].off || bs[j].End() <= bs[i].off
  {
    assert Link(bs, i) && Link(bs, j);
    if i < j { Ordered(bs, i, j); } else { Ordered(bs, j, i); }
  }

  /** The byte at address `a`. */
  ghost function ByteAt(h: HeapState, a: int): byte {
    if 0 <= a - h.start < |h.mem| then h.mem[a - h.start] else 0
  }

  /** A header write does not reach the payload of another block. */
  lemma UpdateKeepsPayload(h: HeapState, h': HeapState, bs: seq<Block>, j: nat, k: nat, a: int)
    requires Updates(h, h', bs, j) && k < |bs| && bs[k].Payload() <= a - h.start < bs[k].End()
    ensures ByteAt(h', a) == ByteAt(h, a)
  {
    PayloadApart(bs, j, k);
  }

  /** Allocation never picks a live block. */
  lemma AllocateKeepsLive(bs: seq<Block>, size: nat, n: nat, k: nat)
    requires k < |bs| && bs[k].live
    ensures var (bs', r) := Allocate(bs, size, n); k < |bs'| && bs'[k] == bs[k] && r != Some(k)
  {
  }

  lemma MallocKeepsPayload(s: Sys, bs: seq<Block>, n: u32, s': Sys, p: u32, a: u32)
    requires Inv(s, bs) && Within(s.live, p, a) && Next(s, Malloc(n), s')
    ensures p in s'.live && s'.live[p] == s.live[p] && ByteAt(s'.heap, a) == ByteAt(s.heap, a)
  {
    var (bs', r) := Allocate(bs, s.heap.size, n);
    var k :| Owns(s.heap.start, s.live, bs, k, p);
    AllocateKeepsLive(bs, s.heap.size, n, k);
    KmallocRefines(s.heap, bs, n);
    if r.Some? {
      UpdateKeepsPayload(s.heap, s'.heap, bs', r.value, k, a);
      if Kmalloc(s.heap, n).1 == p { DistinctPointers(s.heap.start, bs', r.value, k); }
    }
  }

  lemma FreeKeepsPayload(s: Sys, bs: seq<Block>, q: u32, s': Sys, p: u32, a: u32)
    requires Inv(s, bs) && Within(s.live, p, a) && Legal(s, Free(q)) && Next(s, Free(q), s') && p != q
    ensures p in s'.live && s'.live[p] == s.live[p] && ByteAt(s'.heap, a) == ByteAt(s.heap, a)
  {
    if q != NULL {
      var k :| Owns(s.heap.start, s.live, bs, k, p);
      var j :| PointsAt(s.heap.start, bs, j, q);
      KfreeRefines(s.heap, bs, j);
      UpdateKeepsPayload(s.heap, s'.heap, bs[j := bs[j].(live := false)], j, k, a);
    }
  }

  lemma StoreKeepsPayload(s: Sys, b: u32, v: byte, s': Sys, a: u32)
    requires s.heap.start <= b < s.heap.start + |s.heap.mem| && Next(s, Store(b, v), s') && a != b
    ensures s'.live == s.live && ByteAt(s'.heap, a) == ByteAt(s.heap, a)
  {
  }

  /** One step leaves every held byte alone, unless the step frees it or is the client's own
      write to it. */
  lemma StepKeepsPayload(s: Sys, op: Op, s': Sys, p: u32, a: u32)
    requires Inv(s, BlocksOf(s)) && Legal(s, op) && Next(s, op, s')
    requires Within(s.live, p, a) && op != Free(p) && !(op.Store? && op.addr == a)
    ensures Within(s'.live, p, a) && ByteAt(s'.heap, a) == ByteAt(s.heap, a)
  {
    match op {
      case Malloc(n) => MallocKeepsPayload(s, BlocksOf(s), n, s', p, a);
      case Free(q) => FreeKeepsPayload(s, BlocksOf(s), q, s', p, a);
      case Store(b, v) =>
        var k := BlockOfStore(s, BlocksOf(s), b);
        StoreKeepsPayload(s, b, v, s', a);
    }
  }

  lemma OneStepKeepsPayload(trace: seq<Sys>, ops: seq<Op>, k: nat, p: u32, a: u32)
    requires Run(trace, ops) && k < |ops| && Within(trace[k].live, p, a)
    requires ops[k] != Free(p) && !(ops[k].Store? && ops[k].addr == a)
    ensures Within(trace[k + 1].live, p, a) && ByteAt(trace[k + 1].heap, a) == ByteAt(trace[k].heap, a)
  {
    RunInvariant(trace, ops, k);
    assert StepAt(trace, ops, k);
    StepKeepsPayload(trace[k], ops[k], trace[k + 1], p, a);
  }

  /** Data integrity: over any stretch of a run in which the client does not free `p` and does
      not write address `a` inside it, the byte at `a` keeps its value. */
  lemma {:induction false} RunKeepsPayload(trace: seq<Sys>, ops: seq<Op>, i: nat, j: nat, p: u32, a: u32)
    requires Run(trace, ops) && i <= j < |trace| && Within(trace[i].live, p, a)
    requires forall k :: i <= k < j ==> ops[k] != Free(p) && !(ops[k].Store? && ops[k].addr == a)
    ensures Within(trace[j].live, p, a) && ByteAt(trace[j].heap, a) == ByteAt(trace[i].heap, a)
    decreases j
  {
    if i == j {
    } else {
      RunKeepsPayload(trace, ops, i, j - 1, p, a);
      OneStepKeepsPayload(trace, ops, j - 1, p, a);
    }
  }

  /** In every run, freeing a pointer that is not held any more changes nothing. */
  lemma RunStaleFree(trace: seq<Sys>, ops: seq<Op>, i: nat, p: u32)
    requires Run(trace, ops) && i < |ops| && ops[i] == Free(p) && p !in trace[i].live
    ensures trace[i + 1] == trace[i]
  {
    var s, bs := trace[i], BlocksOf(trace[i]);
    RunInvariant(trace, ops, i);
    assert StepAt(trace, ops, i);
    if p != NULL {
      var k :| PointsAt(s.heap.start, bs, k, p);
      assert HeaderAt(s.heap.mem, bs, k);
      KfreeRefines(s.heap, bs, k);
    }
    assert s.live - {p} == s.live;
  }
}
