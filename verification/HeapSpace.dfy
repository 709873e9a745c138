/** How much space the heap can take over a whole run.  Blocks are never split, merged or
    removed, yet a block size is created anew only while every block of that size is live, so
    the number of blocks of one size never passes the peak number of live blocks. */
module HeapSpace {
  import opened Words
  import opened Heap
  import opened HeapBlocks
  import opened HeapRuns

  // ---------------------------------------------------------------- boundaries

  /** Every block of `bs` is still there in `bs'`, at the same place and with the same size. */
  predicate Extends(bs: seq<Block>, bs': seq<Block>) {
    |bs| <= |bs'| && forall i :: 0 <= i < |bs| ==> bs'[i].off == bs[i].off && bs'[i].size == bs[i].size
  }

  lemma StepExtends(start: u32, size: nat, bs: seq<Block>, op: Op)
    ensures var bs' := BlocksAfter(start, size, bs, op);
      Extends(bs, bs') && Boundary(bs, |bs|) <= Boundary(bs', |bs'|)
  {
  }

  lemma {:induction false} BlockRunExtends(start: u32, size: nat, blocks: seq<seq<Block>>, ops: seq<Op>, i: nat, j: nat)
    requires BlockRun(start, size, blocks, ops) && i <= j < |blocks|
    ensures Extends(blocks[i], blocks[j])
    ensures Boundary(blocks[i], |blocks[i]|) <= Boundary(blocks[j], |blocks[j]|)
    decreases j
  {
    if i == j {
    } else {
      BlockRunExtends(start, size, blocks, ops, i, j - 1);
      assert BlockStepAt(start, size, blocks, ops, j - 1);
      StepExtends(start, size, blocks[j - 1], ops[j - 1]);
    }
  }

  /** Over a run block boundaries never move and `used` never shrinks. */
  lemma RunKeepsBoundaries(trace: seq<Sys>, ops: seq<Op>, i: nat, j: nat)
    requires Run(trace, ops) && i <= j < |trace|
    ensures Extends(BlocksOf(trace[i]), BlocksOf(trace[j]))
    ensures trace[i].heap.used <= trace[j].heap.used
  {
    RunOnBlocks(trace, ops);
    BlockRunExtends(trace[0].heap.start, trace[0].heap.size, BlocksAlong(trace), ops, i, j);
    RunInvariant(trace, ops, i);
    RunInvariant(trace, ops, j);
  }

  // ---------------------------------------------------------------- counting blocks

  /** How many of the first `k` blocks have size `t`. */
  function Count(bs: seq<Block>, t: nat, k: nat): nat
    requires k <= |bs|
  {
    if k == 0 then 0 else Count(bs, t, k - 1) + (if bs[k - 1].size == t then 1 else 0)
  }

  /** How many of the first `k` blocks are live. */
  function LiveCount(bs: seq<Block>, k: nat): nat
    requires k <= |bs|
  {
    if k == 0 then 0 else LiveCount(bs, k - 1) + (if bs[k - 1].live then 1 else 0)
  }

  lemma {:induction false} CountExtends(bs: seq<Block>, bs': seq<Block>, t: nat, k: nat)
    requires Extends(bs, bs') && k <= |bs|
    ensures Count(bs', t, k) == Count(bs, t, k)
  {
    if k == 0 {
    } else {
      CountExtends(bs, bs', t, k - 1);
    }
  }

  lemma {:induction false} CountOfLive(bs: seq<Block>, t: nat, k: nat)
    requires k <= |bs| && forall i :: 0 <= i < k && bs[i].size == t ==> bs[i].live
    ensures Count(bs, t, k) <= LiveCount(bs, k)
  {
    if k == 0 {
    } else {
      CountOfLive(bs, t, k - 1);
    }
  }

  /** After a step, a size has either as many blocks as before, or no more than are live. */
  lemma CountStep(start: u32, size: nat, bs: seq<Block>, op: Op, t: nat)
    ensures var bs' := BlocksAfter(start, size, bs, op);
      Count(bs', t, |bs'|) <= Count(bs, t, |bs|) || Count(bs', t, |bs'|) <= LiveCount(bs', |bs'|)
  {
    var bs' := BlocksAfter(start, size, bs, op);
    StepExtends(start, size, bs, op);
    CountExtends(bs, bs', t, |bs|);
    if |bs'| > |bs| && bs'[|bs|].size == t {
      CountOfLive(bs', t, |bs'|);
    }
  }

  /** The pointers to the live blocks among the first `k`. */
  function LivePointers(start: u32, bs: seq<Block>, k: nat): set<int>
    requires k <= |bs|
  {
    if k == 0 then {}
    else LivePointers(start, bs, k - 1) + (if bs[k - 1].live then {PointerTo(start, bs[k - 1])} else {})
  }

  predicate PointsTo(start: u32, bs: seq<Block>, i: int, p: int) {
    0 <= i < |bs| && bs[i].live && PointerTo(start, bs[i]) == p
  }

  lemma {:induction false} LivePointersAre(start: u32, bs: seq<Block>, k: nat, p: int)
    requires k <= |bs|
    ensures p in LivePointers(start, bs, k) <==> exists i :: i < k && PointsTo(start, bs, i, p)
  {
    if k == 0 {
    } else {
      LivePointersAre(start, bs, k - 1, p);
      assert PointsTo(start, bs, k - 1, p) <==> bs[k - 1].live && PointerTo(start, bs[k - 1]) == p;
    }
  }

  lemma {:induction false} LivePointersCount(start: u32, bs: seq<Block>, k: nat)
    requires Chained(bs) && k <= |bs|
    ensures |LivePointers(start, bs, k)| == LiveCount(bs, k)
  {
    if k == 0 {
    } else {
      LivePointersCount(start, bs, k - 1);
      var q := PointerTo(start, bs[k - 1]);
      LivePointersAre(start, bs, k - 1, q);
      if q in LivePointers(start, bs, k - 1) {
        var i :| i < k - 1 && PointsTo(start, bs, i, q);
        DistinctPointers(start, bs, i, k - 1);
      }
    }
  }

  /** Clients hold as many pointers as there are live blocks. */
  lemma HeldCount(s: Sys)
    requires Inv(s, BlocksOf(s))
    ensures LiveCount(BlocksOf(s), |BlocksOf(s)|) == |s.live|
  {
    var bs, start := BlocksOf(s), s.heap.start;
    LivePointersCount(start, bs, |bs|);
    var ptrs := LivePointers(start, bs, |bs|);
    forall p | p in s.live ensures p in ptrs {
      var i :| Owns(start, s.live, bs, i, p);
      assert PointsTo(start, bs, i, p);
      LivePointersAre(start, bs, |bs|, p);
    }
    forall p | p in ptrs ensures p in s.live.Keys {
      LivePointersAre(start, bs, |bs|, p);
      var i :| i < |bs| && PointsTo(start, bs, i, p);
    }
    assert s.live.Keys == ptrs;
  }

  /** The largest number of live blocks up to step `i`. */
  function PeakLive(blocks: seq<seq<Block>>, i: nat): nat
    requires i < |blocks|
  {
    var now := LiveCount(blocks[i], |blocks[i]|);
    if i == 0 then now else Max(now, PeakLive(blocks, i - 1))
  }

  function Max(a: nat, b: nat): nat {
    if a > b then a else b
  }

  lemma {:induction false} BlockRunCountBound(start: u32, size: nat, blocks: seq<seq<Block>>, ops: seq<Op>, i: nat, t: nat)
    requires BlockRun(start, size, blocks, ops) && i < |blocks|
    ensures Count(blocks[i], t, |blocks[i]|) <= PeakLive(blocks, i)
  {
    if i == 0 {
    } else {
      BlockRunCountBound(start, size, blocks, ops, i - 1, t);
      assert BlockStepAt(start, size, blocks, ops, i - 1);
      CountStep(start, size, blocks[i - 1], ops[i - 1], t);
    }
  }

  /** The largest number of pointers held at once up to step `i`. */
  function Peak(trace: seq<Sys>, i: nat): nat
    requires i < |trace|
  {
    if i == 0 then |trace[0].live| else Max(|trace[i].live|, Peak(trace, i - 1))
  }

  lemma {:induction false} PeakIsPeakLive(trace: seq<Sys>, ops: seq<Op>, i: nat)
    requires Run(trace, ops) && i < |trace|
    ensures Peak(trace, i) == PeakLive(BlocksAlong(trace), i)
  {
    RunInvariant(trace, ops, i);
    HeldCount(trace[i]);
    if i == 0 {
    } else {
      PeakIsPeakLive(trace, ops, i - 1);
    }
  }

  /** In every run, the number of blocks of any one size is at most the peak number of
      pointers held at once. */
  lemma RunCountBound(trace: seq<Sys>, ops: seq<Op>, i: nat, t: nat)
    requires Run(trace, ops) && i < |trace|
    ensures Count(BlocksOf(trace[i]), t, |BlocksOf(trace[i])|) <= Peak(trace, i)
  {
    RunOnBlocks(trace, ops);
    BlockRunCountBound(trace[0].heap.start, trace[0].heap.size, BlocksAlong(trace), ops, i, t);
    PeakIsPeakLive(trace, ops, i);
  }

  // ---------------------------------------------------------------- total space

  /** The space of those among the first `k` blocks that are at most `t` bytes long. */
  function SpaceUpTo(bs: seq<Block>, t: nat, k: nat): nat
    requires k <= |bs|
  {
    if k == 0 then 0 else SpaceUpTo(bs, t, k - 1) + (if bs[k - 1].size <= t then bs[k - 1].size else 0)
  }

  /** The sum of the distinct block sizes up to `t`. */
  function DistinctSizes(bs: seq<Block>, t: nat): nat {
    if t == 0 then 0 else DistinctSizes(bs, t - 1) + (if Count(bs, t, |bs|) > 0 then t else 0)
  }

  lemma {:induction false} SpaceByLastSize(bs: seq<Block>, t: nat, k: nat)
    requires k <= |bs| && t > 0
    ensures SpaceUpTo(bs, t, k) == SpaceUpTo(bs, t - 1, k) + t * Count(bs, t, k)
  {
    if k == 0 {
    } else {
      SpaceByLastSize(bs, t, k - 1);
    }
  }

  lemma {:induction false} NoSpaceUpToZero(bs: seq<Block>, k: nat)
    requires k <= |bs|
    ensures SpaceUpTo(bs, 0, k) == 0
  {
    if k == 0 {
    } else {
      NoSpaceUpToZero(bs, k - 1);
    }
  }

  lemma {:induction false} SpaceIsUsed(bs: seq<Block>, t: nat, k: nat)
    requires Chained(bs) && k <= |bs| && Boundary(bs, k) <= t
    ensures SpaceUpTo(bs, t, k) == Boundary(bs, k)
  {
    if k == 0 {
    } else {
      assert Link(bs, k - 1);
      SpaceIsUsed(bs, t, k - 1);
    }
  }

  lemma {:induction false} SpaceBySizes(bs: seq<Block>, t: nat, peak: nat)
    requires forall x :: 0 <= x <= t ==> Count(bs, x, |bs|) <= peak
    ensures SpaceUpTo(bs, t, |bs|) <= peak * DistinctSizes(bs, t)
  {
    if t == 0 {
      NoSpaceUpToZero(bs, |bs|);
    } else {
      SpaceBySizes(bs, t - 1, peak);
      SpaceByLastSize(bs, t, |bs|);
      TimesMonotone(t, Count(bs, t, |bs|), peak, DistinctSizes(bs, t - 1));
    }
  }

  lemma TimesMonotone(t: nat, c: nat, peak: nat, d: nat)
    requires c <= peak
    ensures t * c <= peak * t && peak * (d + t) == peak * d + peak * t
  {
  }

  /** In every run the used heap is at most the peak number of pointers held at once times the
      sum of the distinct block sizes ever created. */
  lemma RunSpaceBound(trace: seq<Sys>, ops: seq<Op>, i: nat)
    requires Run(trace, ops) && i < |trace|
    ensures trace[i].heap.used <= Peak(trace, i) * DistinctSizes(BlocksOf(trace[i]), trace[i].heap.used)
  {
    var bs, used := BlocksOf(trace[i]), trace[i].heap.used;
    RunInvariant(trace, ops, i);
    forall x | 0 <= x <= used ensures Count(bs, x, |bs|) <= Peak(trace, i) {
      RunCountBound(trace, ops, i, x);
    }
    SpaceBySizes(bs, used, Peak(trace, i));
    SpaceIsUsed(bs, used, |bs|);
  }
}
