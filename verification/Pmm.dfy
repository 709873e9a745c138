/** The physical frame allocator: one bit per 4 KB frame, first free frame first. */
module Pmm {
  import opened Words

  const PAGE_SIZE := 4096
  const NO_PAGE: u32 := 0xFFFFFFFF

  // ---------------------------------------------------------------- the allocator as a set of frames

  /** Frames 0..total-1, of which `used` are allocated. */
  datatype Frames = Frames(total: nat, used: set<nat>)

  /** A 32-bit byte count gives less than 2^20 frames. */
  ghost predicate WellFormed(f: Frames) {
    f.total < U32_LIMIT / PAGE_SIZE && forall i :: i in f.used ==> i < f.total
  }

  ghost predicate Exhausted(f: Frames) {
    forall i :: 0 <= i < f.total ==> i in f.used
  }

  /** The least free frame at or above `i`, or `total`. */
  function LeastFree(f: Frames, i: nat): (r: nat)
    requires i <= f.total
    ensures i <= r <= f.total
    ensures forall k :: i <= k < r ==> k in f.used
    ensures r < f.total ==> r !in f.used
    decreases f.total - i
  {
    if i == f.total || i !in f.used then i else LeastFree(f, i + 1)
  }

  /** pmm_alloc: take the least free frame and return its address; 0 when there is none. */
  function Alloc(f: Frames): (r: (Frames, nat))
    ensures r.0.total == f.total && r.1 <= f.total * PAGE_SIZE
  {
    var i := LeastFree(f, 0);
    if i == f.total then (f, 0) else (f.(used := f.used + {i}), i * PAGE_SIZE)
  }

  /** pmm_free: give back an allocated frame; anything else is rejected. */
  function Free(f: Frames, addr: u32): (Frames, int) {
    var i := addr / PAGE_SIZE;
    if addr % PAGE_SIZE != 0 || i >= f.total || i !in f.used then (f, -1)
    else (f.(used := f.used - {i}), 0)
  }

  // ---------------------------------------------------------------- the bitmap

  function Mask(k: nat): bv8
    requires k < 8
  {
    (1 as bv8) << k
  }

  predicate TestBit(b: bv8, k: nat)
    requires k < 8
  {
    (b >> k) & 1 == 1
  }

  lemma SetOneBit(b: bv8, k: nat, j: nat)
    requires k < 8 && j < 8
    ensures TestBit(b | Mask(k), j) <==> j == k || TestBit(b, j)
  {
    MaskBit(k, j);
    assert ((b | Mask(k)) >> j) == (b >> j) | (Mask(k) >> j);
  }

  lemma ClearOneBit(b: bv8, k: nat, j: nat)
    requires k < 8 && j < 8
    ensures TestBit(b & !Mask(k), j) <==> j != k && TestBit(b, j)
  {
    MaskBit(k, j);
    assert ((b & !Mask(k)) >> j) & 1 == (b >> j) & !(Mask(k) >> j) & 1;
  }

  lemma MaskBit(k: nat, j: nat)
    requires k < 8 && j < 8
    ensures TestBit(Mask(k), j) <==> j == k
  {
  }

  predicate Bit(bitmap: seq<bv8>, i: nat)
    requires i < 8 * |bitmap|
  {
    TestBit(bitmap[i / 8], i % 8)
  }

  ghost function SetBits(bitmap: seq<bv8>, total: nat): set<nat>
    requires total <= 8 * |bitmap|
  {
    set i: nat | i < total && Bit(bitmap, i)
  }

  /** `b'` is `b` with bit `i` made equal to `on`. */
  ghost predicate BitUpdated(b: seq<bv8>, b': seq<bv8>, i: nat, on: bool) {
    |b'| == |b| && forall j: nat :: j < 8 * |b| ==> (Bit(b', j) <==> if j == i then on else Bit(b, j))
  }

  lemma BitmapSet(b: seq<bv8>, i: nat)
    requires i < 8 * |b|
    ensures BitUpdated(b, b[i / 8 := b[i / 8] | Mask(i % 8)], i, true)
  {
    forall j: nat | j < 8 * |b| { SetOneBit(b[i / 8], i % 8, j % 8); }
  }

  lemma BitmapClear(b: seq<bv8>, i: nat)
    requires i < 8 * |b|
    ensures BitUpdated(b, b[i / 8 := b[i / 8] & !Mask(i % 8)], i, false)
  {
    forall j: nat | j < 8 * |b| { ClearOneBit(b[i / 8], i % 8, j % 8); }
  }

  /** Changing bit `i` adds or removes frame `i`, and touches no padding bit. */
  lemma SetBitsAfter(b: seq<bv8>, b': seq<bv8>, total: nat, i: nat, on: bool)
    requires i < total <= 8 * |b| && BitUpdated(b, b', i, on)
    ensures SetBits(b', total) == if on then SetBits(b, total) + {i} else SetBits(b, total) - {i}
    ensures forall j: nat :: total <= j < 8 * |b| ==> (Bit(b', j) <==> Bit(b, j))
  {
  }

  class FrameAllocator {
    var bitmap: array<bv8>
    var totalPages: u32
    var allocatedPages: u32

    ghost predicate Shaped()
      reads this
    {
      bitmap.Length == (totalPages + 7) / 8 && totalPages < U32_LIMIT / PAGE_SIZE
    }

    ghost function State(): Frames
      requires Shaped()
      reads this, bitmap
    {
      Frames(totalPages, SetBits(bitmap[..], totalPages))
    }

    /** The counter is the number of set bits, and the padding bits of the last byte stay 0. */
    ghost predicate Valid()
      reads this, bitmap
    {
      && Shaped()
      && allocatedPages == |State().used|
      && forall j: nat :: totalPages <= j < 8 * bitmap.Length ==> !Bit(bitmap[..], j)
    }

    /** pmm_init */
    constructor (totalMemory: u32)
      ensures Valid() && fresh(bitmap)
      ensures State() == Frames(totalMemory / 4096, {})
    {
      totalPages := totalMemory / PAGE_SIZE;
      allocatedPages := 0;
      bitmap := new bv8[(totalMemory / PAGE_SIZE + 7) / 8];
      new;
      for i := 0 to bitmap.Length
        invariant Shaped() && allocatedPages == 0 && totalPages == totalMemory / PAGE_SIZE && fresh(bitmap)
        invariant forall k :: 0 <= k < i ==> bitmap[k] == 0
      {
        bitmap[i] := 0;
      }
      assert forall j: nat :: j < 8 * bitmap.Length ==> !Bit(bitmap[..], j) by { ZeroBytesAreClear(bitmap[..]); }
      assert State().used == {};
    }

    method SetBit(i: u32)
      requires i < 8 * bitmap.Length
      modifies bitmap
      ensures BitUpdated(old(bitmap[..]), bitmap[..], i, true)
    {
      BitmapSet(bitmap[..], i);
      bitmap[i / 8] := bitmap[i / 8] | Mask(i % 8);
    }

    method ClearBit(i: u32)
      requires i < 8 * bitmap.Length
      modifies bitmap
      ensures BitUpdated(old(bitmap[..]), bitmap[..], i, false)
    {
      BitmapClear(bitmap[..], i);
      bitmap[i / 8] := bitmap[i / 8] & !Mask(i % 8);
    }

    method FindFreePage() returns (r: u32)
      requires Shaped()
      ensures r == var i := LeastFree(State(), 0); if i == totalPages then 0xFFFF_FFFF else i
    {
      for i := 0 to totalPages
        invariant LeastFree(State(), 0) == LeastFree(State(), i)
      {
        if !TestBit(bitmap[i / 8], i % 8) {
          assert i !in State().used;
          return i;
        }
        assert Bit(bitmap[..], i);
      }
      return NO_PAGE;
    }

    /** pmm_alloc */
    method Allocate() returns (addr: u32)
      requires Valid()
      modifies this`allocatedPages, bitmap
      ensures Valid() && (State(), addr) == Alloc(old(State()))
    {
      var i := FindFreePage();
      if i == NO_PAGE {
        return 0;
      }
      SetBit(i);
      SetBitsAfter(old(bitmap[..]), bitmap[..], totalPages, i, true);
      assert State() == Alloc(old(State())).0;
      CountBound(State());
      allocatedPages := allocatedPages + 1;
      return i * PAGE_SIZE;
    }

    /** pmm_free */
    method Release(addr: u32) returns (status: int)
      requires Valid()
      modifies this`allocatedPages, bitmap
      ensures Valid() && (State(), status) == Free(old(State()), addr)
    {
      if addr % PAGE_SIZE != 0 {
        return -1;
      }
      var i := addr / PAGE_SIZE;
      if i >= totalPages {
        return -1;
      }
      if !TestBit(bitmap[i / 8], i % 8) {
        assert i !in State().used;
        return -1;
      }
      assert Bit(bitmap[..], i);
      assert i in State().used;
      ClearBit(i);
      SetBitsAfter(old(bitmap[..]), bitmap[..], totalPages, i, false);
      allocatedPages := allocatedPages - 1;
      return 0;
    }

    method FreePages() returns (n: u32)
      requires Valid()
      ensures n == totalPages - |State().used|
      ensures n == 0 <==> Exhausted(State())
    {
      CountBound(State());
      n := totalPages - allocatedPages;
    }
  }

  /** Frame 8 * q + r has bit r of byte q, counting from the least significant bit. */
  lemma BitPlaces(bitmap: seq<bv8>, q: nat, r: nat)
    requires q < |bitmap| && r < 8
    ensures Bit(bitmap, 8 * q + r) <==> bitmap[q] & [1, 2, 4, 8, 16, 32, 64, 128][r] != 0
  {
    BitIsMask(bitmap[q], r);
  }

  lemma BitIsMask(b: bv8, r: nat)
    requires r < 8
    ensures TestBit(b, r) <==> b & [1, 2, 4, 8, 16, 32, 64, 128][r] != 0
  {
    if r == 0 {
    } else if r == 1 {
    } else if r == 2 {
    } else if r == 3 {
    } else if r == 4 {
    } else if r == 5 {
    } else if r == 6 {
    } else {
    }
  }

  lemma ZeroBytesAreClear(b: seq<bv8>)
    requires forall k :: 0 <= k < |b| ==> b[k] == 0
    ensures forall j: nat :: j < 8 * |b| ==> !Bit(b, j)
  {
  }

  /** At most `total` frames are allocated, and all of them exactly when none is free. */
  lemma {:induction false} CountBound(f: Frames)
    requires forall i :: i in f.used ==> i < f.total
    ensures |f.used| <= f.total
    ensures |f.used| == f.total <==> Exhausted(f)
    decreases f.total
  {
    if f.total > 0 {
      var last := f.total - 1;
      var rest := Frames(last, f.used - {last});
      CountBound(rest);
      if last in f.used { assert f.used == rest.used + {last}; } else { assert f.used == rest.used; }
      assert Exhausted(f) <==> Exhausted(rest) && last in f.used;
    } else {
      assert f.used == {};
    }
  }
}
