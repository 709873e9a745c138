/** When paging is safe after boot: exactly if the allocator cannot hand out the frames of the page
    directory, of the static page tables, and of the memory that must survive, such as the frame
    bitmap itself. */
module VmmBoot {
  import opened Words
  import opened Pmm
  import opened PmmRuns
  import opened Vmm
  import opened VmmRuns

  // ---------------------------------------------------------------- the promise

  /** State `i` of the run translates `w` as the flat map does. */
  ghost predicate FlatAt(trace: seq<VmState>, calls: seq<Call>, results: seq<int>, i: nat, w: u32)
    requires |trace| == |calls| + 1 && |results| == |calls| && i < |trace|
  {
    Backed(trace[i]) && Mapping(trace[i], w) == Lookup(FlatAfter(calls, results, i), w)
  }

  ghost predicate SameWords(s: VmState, s': VmState, f: nat) {
    Inside(s, f) && Inside(s', f) && forall k :: 0 <= k < ENTRIES ==> Word(s', f, k) == Word(s, f, k)
  }

  /** Call `i` of the run, unless it is a store of other code, changes no word of these frames. */
  ghost predicate KeptAt(trace: seq<VmState>, calls: seq<Call>, kept: set<nat>, i: nat)
    requires |trace| == |calls| + 1 && i < |calls|
  {
    calls[i].StoreCall? || forall f :: f in kept ==> SameWords(trace[i], trace[i + 1], f)
  }

  ghost predicate SafeAt(trace: seq<VmState>, calls: seq<Call>, results: seq<int>, kept: set<nat>, i: nat, w: u32)
    requires |trace| == |calls| + 1 && |results| == |calls| && i < |trace|
  {
    FlatAt(trace, calls, results, i, w) && (i < |calls| ==> KeptAt(trace, calls, kept, i))
  }

  /** In every run from `s` the tables refine the flat map, and the paging code leaves the frames
      in `kept` alone. */
  ghost predicate AlwaysSafe(s: VmState, kept: set<nat>) {
    forall trace, calls, results, i: nat, w: u32 ::
      Steps(trace, calls, results) && trace[0] == s && i < |trace| ==> SafeAt(trace, calls, results, kept, i, w)
  }

  /** The kernel's own frames and those in `kept`. */
  predicate Precious(s: VmState, kept: set<nat>, f: nat) {
    KernelFrame(s, f) || f in kept
  }

  ghost predicate AllReserved(s: VmState, kept: set<nat>) {
    forall f: nat :: Precious(s, kept, f) ==> Reserved(s, f)
  }

  /** The frames in `kept` are memory other than the kernel's directory and tables, and frame 0,
      which never becomes a table, is not among them. */
  ghost predicate Placed(s: VmState, kept: set<nat>) {
    forall f :: f in kept ==> f != 0 && Inside(s, f) && !KernelFrame(s, f)
  }

  /** Free frames hold zeros, apart from what the kernel has put into its own. */
  ghost predicate OtherFramesZeroed(s: VmState, kept: set<nat>) {
    forall f: nat :: !Reserved(s, f) && !Precious(s, kept, f) ==> Zeroed(s, f)
  }

  // ---------------------------------------------------------------- reserved frames make it safe

  /** A frame that other code may store into stays one, and the paging code does not write it. */
  lemma CallKeepsFrame(s: VmState, c: Call, f: nat)
    requires Consistent(s) && MayStore(s, f)
    ensures var s' := Do(s, c).0; Shaped(s') && MayStore(s', f) && (c.StoreCall? || SameWords(s, s', f))
  {
    DoKeepsConsistent(s, c);
    var s' := Do(s, c).0;
    forall i | 0 <= i < ENTRIES ensures NotTheTable(s', f, i) {
      assert NotTheTable(s, f, i);
      CallEntry(s, c, i);
    }
    CallReserves(s, c, f);
    if !c.StoreCall? {
      forall k | 0 <= k < ENTRIES ensures Word(s', f, k) == Word(s, f, k) { CallWord(s, c, f, k); }
    }
  }

  lemma MapReserves(s: VmState, v: u32, p: u32, flags: u32, f: nat)
    requires Consistent(s) && Reserved(s, f)
    ensures var s' := Map(s, v, p, flags).0; Reserved(s', f) && |s'.words| == |s.words| && s'.directory == s.directory
  {
    var j := Directory(v);
    AllocExact(s.frames);
    if Aligned(v, p) {
      MapIsSetEntry(s, v, p, flags);
      if Present(Pde(s, j)) {
        SetEntryKeepsDirectory(s, j, Table(v), Or32(p, flags));
      } else if CanAddTable(s.frames) {
        AddTableEntries(s, j, j);
        SetEntryKeepsDirectory(AddTable(s, j), j, Table(v), Or32(p, flags));
      }
    }
  }

  /** What is reserved stays reserved. */
  lemma CallReserves(s: VmState, c: Call, f: nat)
    requires Consistent(s) && Reserved(s, f)
    ensures var s' := Do(s, c).0; Reserved(s', f) && |s'.words| == |s.words| && s'.directory == s.directory
  {
    AllocExact(s.frames);
    match c
    case MapCall(v, p, flags) => MapReserves(s, v, p, flags, f);
    case UnmapCall(v) => if Mapping(s, v).Some? { SetEntryKeepsDirectory(s, Directory(v), Table(v), 0); }
    case TakeCall =>
    case StoreCall(_, _, _) =>
  }

  /** vmm_map and vmm_unmap write into the directory, a table, or a frame that was free. */
  lemma CallWord(s: VmState, c: Call, f: nat, k: nat)
    requires Consistent(s) && MayStore(s, f) && k < ENTRIES && !c.StoreCall?
    ensures Inside(Do(s, c).0, f) && Word(Do(s, c).0, f, k) == Word(s, f, k)
  {
    match c
    case MapCall(v, p, flags) => if Aligned(v, p) { MapWord(s, v, p, flags, f, k); }
    case UnmapCall(v) =>
      if Mapping(s, v).Some? {
        assert EntryBacked(s, Directory(v)) && NotTheTable(s, f, Directory(v));
        WordAfterWrite(s, Frame(Pde(s, Directory(v))), Table(v), 0, f, k);
      }
    case TakeCall =>
  }

  lemma MapWord(s: VmState, v: u32, p: u32, flags: u32, f: nat, k: nat)
    requires Consistent(s) && MayStore(s, f) && k < ENTRIES && Aligned(v, p)
    ensures Inside(Map(s, v, p, flags).0, f) && Word(Map(s, v, p, flags).0, f, k) == Word(s, f, k)
  {
    var j := Directory(v);
    assert EntryBacked(s, j) && NotTheTable(s, f, j);
    if Present(Pde(s, j)) {
      WordAfterWrite(s, Frame(Pde(s, j)), Table(v), Or32(p, flags), f, k);
    } else if CanAddTable(s.frames) {
      MapIntoNewTable(s, v, p, flags);
      AddTableEntries(s, j, j);
      var t, g := s.(frames := Alloc(s.frames).0), Frame(Alloc(s.frames).1);
      WordAfterWrite(t, s.directory, j, Or32(Alloc(s.frames).1, PRESENT_WRITE), f, k);
      WordAfterWrite(AddTable(s, j), g, Table(v), Or32(p, flags), f, k);
    } else {
      MapIsSetEntry(s, v, p, flags);
    }
  }

  /** In every run a frame that other code may store into stays one. */
  lemma {:induction false} RunMayStore(trace: seq<VmState>, calls: seq<Call>, results: seq<int>, i: nat, f: nat)
    requires VmRun(trace, calls, results) && i < |trace| && MayStore(trace[0], f)
    ensures Shaped(trace[i]) && MayStore(trace[i], f)
  {
    if i == 0 {
    } else {
      RunMayStore(trace, calls, results, i - 1, f);
      RunIsConsistent(trace, calls, results, i - 1);
      assert CallAt(trace, calls, results, i - 1);
      CallKeepsFrame(trace[i - 1], calls[i - 1], f);
    }
  }

  /** After vmm_init other code may store into every reserved frame outside directory and tables. */
  lemma BootMayStore(s: VmState, f: nat)
    requires Booted(s) && Inside(s, f) && Reserved(s, f) && !KernelFrame(s, f)
    ensures MayStore(s, f)
  {
    forall i | 0 <= i < ENTRIES ensures NotTheTable(s, f, i) { BootEntries(s, i); }
  }

  lemma RunKeeps(trace: seq<VmState>, calls: seq<Call>, results: seq<int>, kept: set<nat>, i: nat)
    requires VmRun(trace, calls, results) && Placed(trace[0], kept) && AllReserved(trace[0], kept) && i < |calls|
    ensures KeptAt(trace, calls, kept, i)
  {
    forall f | f in kept ensures calls[i].StoreCall? || SameWords(trace[i], trace[i + 1], f) {
      assert Precious(trace[0], kept, f);
      BootMayStore(trace[0], f);
      RunMayStore(trace, calls, results, i, f);
      RunIsConsistent(trace, calls, results, i);
      assert CallAt(trace, calls, results, i);
      CallKeepsFrame(trace[i], calls[i], f);
    }
  }

  lemma ReservedIsSafe(s: VmState, kept: set<nat>)
    requires Booted(s) && WellFormed(s.frames) && Placed(s, kept) && OtherFramesZeroed(s, kept) && AllReserved(s, kept)
    ensures Consistent(s) && AlwaysSafe(s, kept)
  {
    forall f: nat | KernelFrame(s, f) ensures Reserved(s, f) { assert Precious(s, kept, f); }
    BootDirectoryOk(s);
    forall f: nat | !Reserved(s, f) ensures Zeroed(s, f) { assert !Precious(s, kept, f); }
    forall trace, calls, results, i: nat, w: u32 | Steps(trace, calls, results) && trace[0] == s && i < |trace|
      ensures SafeAt(trace, calls, results, kept, i, w)
    {
      RunRefinesFlat(trace, calls, results, i, w);
      if i < |calls| { RunKeeps(trace, calls, results, kept, i); }
    }
  }

  // ---------------------------------------------------------------- a free one makes it unsafe

  lemma LeastFreePrecious(s: VmState, kept: set<nat>, f: nat) returns (g: nat)
    requires Precious(s, kept, f) && !Reserved(s, f)
    ensures Precious(s, kept, g) && !Reserved(s, g)
    ensures forall h: nat :: h < g && Precious(s, kept, h) ==> Reserved(s, h)
    decreases f
  {
    if h: nat :| h < f && Precious(s, kept, h) && !Reserved(s, h) {
      g := LeastFreePrecious(s, kept, h);
    } else {
      g := f;
    }
  }

  /** Other parts of the kernel take frames until `g` is the next one. */
  lemma {:induction false} TakeUntil(s: VmState, g: nat)
    returns (trace: seq<VmState>, calls: seq<Call>, results: seq<int>)
    requires Backed(s) && WellFormed(s.frames) && !Reserved(s, g)
    ensures Steps(trace, calls, results) && trace[0] == s
    ensures forall i :: 0 <= i < |calls| ==> calls[i] == TakeCall
    ensures var t := trace[|calls|]; t == s.(frames := t.frames) && WellFormed(t.frames) && LeastFree(t.frames, 0) == g
    ensures var t := trace[|calls|]; t.frames.total == s.frames.total
    decreases g - LeastFree(s.frames, 0)
  {
    var f := LeastFree(s.frames, 0);
    if f == g {
      trace, calls, results := [s], [], [];
    } else {
      AllocExact(s.frames);
      var s' := Do(s, TakeCall).0;
      FrameTaken(s);
      var later, rest, more := TakeUntil(s', g);
      trace, calls, results := [s] + later, [TakeCall] + rest, [Do(s, TakeCall).1] + more;
      forall i | 0 <= i < |calls| ensures CallAt(trace, calls, results, i) {
        if i > 0 { assert CallAt(later, rest, more, i - 1); }
      }
    }
  }

  lemma FrameTaken(s: VmState)
    requires Backed(s) && WellFormed(s.frames) && !Exhausted(s.frames)
    ensures var s' := Do(s, TakeCall).0;
      && Backed(s') && WellFormed(s'.frames) && s' == s.(frames := s'.frames) && s'.frames.total == s.frames.total
      && LeastFree(s'.frames, 0) > LeastFree(s.frames, 0)
      && forall g: nat :: g != LeastFree(s.frames, 0) ==> (Reserved(s', g) <==> Reserved(s, g))
  {
    var s' := Do(s, TakeCall).0;
    assert SameDirectory(s, s') by {
      forall i | 0 <= i < ENTRIES ensures SamePde(s, s', i) { }
    }
    forall i | 0 <= i < ENTRIES ensures EntryBacked(s', i) {
      assert EntryBacked(s, i) && SamePde(s, s', i);
    }
  }

  lemma {:induction false} TakesChangeNothing(calls: seq<Call>, results: seq<int>, i: nat)
    requires i <= |calls| == |results| && forall k :: 0 <= k < i ==> calls[k] == TakeCall
    ensures FlatAfter(calls, results, i) == FlatAfter([], [], 0)
  {
    if i == 0 {
    } else {
      TakesChangeNothing(calls, results, i - 1);
    }
  }

  function Unmapped(v: u32): map<nat, u32> {
    FlatStep(FlatAfter([], [], 0), MapCall(v, 0, 0), 0)
  }

  /** With the directory's frame next in line, mapping the page at 16 MB unmaps address 0. */
  lemma DirectoryCallBreaks(t: VmState, v: u32)
    requires Booted(t) && WellFormed(t.frames) && CanAddTable(t.frames) && Alloc(t.frames).1 == t.directory * PAGE_SIZE
    requires v == 4 * TABLE_SPAN
    ensures Backed(t) && Map(t, v, 0, 0).1 == 0
    ensures var s' := Map(t, v, 0, 0).0; Backed(s') ==> Mapping(s', 0) != Lookup(Unmapped(v), 0)
  {
    RequestedEntry(0, 0);
    DirectoryOverwritten(t, v, 0, 0);
    assert !Present(Pde(Map(t, v, 0, 0).0, 0));
    assert PageNumber(0) in Unmapped(v);
  }

  /** With a static table's frame next in line, it maps the page after it. */
  lemma TableCallBreaks(t: VmState, v: u32, k: nat) returns (w: u32)
    requires Booted(t) && WellFormed(t.frames) && CanAddTable(t.frames)
    requires k < 4 && Alloc(t.frames).1 == (t.tables + k) * PAGE_SIZE && v == 4 * TABLE_SPAN
    ensures Backed(t) && Map(t, v, 0, 0).1 == 0
    ensures var s' := Map(t, v, 0, 0).0; Backed(s') ==> Mapping(s', w) != Lookup(Unmapped(v), w)
  {
    w := UnreservedTablesLeak(t, v, 0, 0, k);
    assert PageNumber(w) !in Unmapped(v);
  }

  /** With any other frame next in line, vmm_map writes the page's entry into it, and the words
      already there show up as entries of other pages. */
  lemma FrameOverwritten(t: VmState, v: u32, phys: u32, flags: u32)
    requires Booted(t) && WellFormed(t.frames) && CanAddTable(t.frames) && Aligned(v, phys)
    requires Canon(Directory(v)) >= 4 && !KernelFrame(t, Frame(Alloc(t.frames).1))
    ensures Backed(t) && Map(t, v, phys, flags).1 == 0
    ensures var (s', g) := (Map(t, v, phys, flags).0, Frame(Alloc(t.frames).1));
      && Inside(t, g) && Inside(s', g) && Word(s', g, Table(v)) == Or32(phys, flags)
      && Backed(s') && forall w: u32 :: Directory(w) == Directory(v) && Table(w) != Table(v) ==>
           Mapping(s', w) == if Present(Word(t, g, Table(w))) then Some(Word(t, g, Table(w))) else None
  {
    var g := Frame(Alloc(t.frames).1);
    BootedIsBacked(t);
    BootEntries(t, Directory(v));
    MapIntoNewTable(t, v, phys, flags);
    AddTableEntries(t, Directory(v), 0);
    WordAfterWrite(AddTable(t, Directory(v)), g, Table(v), Or32(phys, flags), g, Table(v));
    NewTableDirectory(t, v, phys, flags);
    forall w: u32 | Directory(w) == Directory(v) && Table(w) != Table(v)
      ensures Mapping(Map(t, v, phys, flags).0, w) ==
              if Present(Word(t, g, Table(w))) then Some(Word(t, g, Table(w))) else None
    {
      NewTableMapping(t, v, phys, flags, w);
    }
  }

  /** So one of two mapping requests changes that frame. */
  lemma FrameCallBreaks(t: VmState, g: nat, v: u32) returns (c: Call)
    requires Booted(t) && WellFormed(t.frames) && CanAddTable(t.frames) && Frame(Alloc(t.frames).1) == g
    requires !KernelFrame(t, g) && v == 4 * TABLE_SPAN
    ensures Backed(t) && c.MapCall? && Do(t, c).1 == 0 && !SameWords(t, Do(t, c).0, g)
  {
    AllocExact(t.frames);
    BootedIsBacked(t);
    AddTableEntries(t, 0, 0);
    var flags: u32 := if Word(t, g, 0) == 0 then 1 else 0;
    c := MapCall(v, 0, flags);
    FrameOverwritten(t, v, 0, flags);
    assert Or32(0, flags) == flags;
    assert Word(Do(t, c).0, g, 0) != Word(t, g, 0);
  }

  /** With a precious frame next in line, one vmm_map breaks the promise. */
  lemma OneCallBreaks(t: VmState, kept: set<nat>, g: nat) returns (c: Call, w: u32)
    requires Booted(t) && WellFormed(t.frames) && Placed(t, kept) && Precious(t, kept, g)
    requires LeastFree(t.frames, 0) == g < t.frames.total
    ensures Backed(t) && c.MapCall? && Do(t, c).1 == 0
    ensures
      var s' := Do(t, c).0;
      || (g in kept && !SameWords(t, s', g))
      || (Backed(s') ==> Mapping(s', w) != Lookup(FlatStep(FlatAfter([], [], 0), c, 0), w))
  {
    AllocExact(t.frames);
    assert g != 0 && CanAddTable(t.frames) && Alloc(t.frames).1 == g * PAGE_SIZE;
    var v: u32 := 4 * TABLE_SPAN;
    c, w := MapCall(v, 0, 0), 0;
    if g == t.directory {
      DirectoryCallBreaks(t, v);
    } else if KernelFrame(t, g) {
      w := TableCallBreaks(t, v, g - t.tables);
    } else {
      c := FrameCallBreaks(t, g, v);
    }
  }

  /** Frames are taken until the precious one is next, and then a page is mapped. */
  lemma UnreservedIsUnsafe(s: VmState, kept: set<nat>, f: nat)
    requires Booted(s) && WellFormed(s.frames) && Placed(s, kept) && Precious(s, kept, f) && !Reserved(s, f)
    ensures !AlwaysSafe(s, kept)
  {
    BootedIsBacked(s);
    var g := LeastFreePrecious(s, kept, f);
    var trace, calls, results := TakeUntil(s, g);
    var n, t := |calls|, trace[|calls|];
    SameWordsBooted(s, t);
    var c, w := OneCallBreaks(t, kept, g);
    var longer, more, status := OneMore(trace, calls, results, c);
    TakesChangeNothing(more, status, n);
    assert FlatAfter(more, status, |more|) == FlatStep(FlatAfter([], [], 0), c, 0);
    if g in kept && !SameWords(t, Do(t, c).0, g) {
      assert !KeptAt(longer, more, kept, n);
      assert !SafeAt(longer, more, status, kept, n, w);
    } else {
      assert !FlatAt(longer, more, status, |more|, w);
      assert !SafeAt(longer, more, status, kept, |more|, w);
    }
  }

  lemma OneMore(trace: seq<VmState>, calls: seq<Call>, results: seq<int>, c: Call)
    returns (longer: seq<VmState>, more: seq<Call>, status: seq<int>)
    requires Steps(trace, calls, results) && Backed(trace[|calls|])
    ensures Steps(longer, more, status) && longer[0] == trace[0] && more == calls + [c]
    ensures longer[|calls|] == trace[|calls|] && longer[|more|] == Do(trace[|calls|], c).0 && status[|calls|] == Do(trace[|calls|], c).1
  {
    var (s', r) := Do(trace[|calls|], c);
    longer, more, status := trace + [s'], calls + [c], results + [r];
    forall i | 0 <= i < |more| ensures CallAt(longer, more, status, i) {
      if i < |calls| { assert CallAt(trace, calls, results, i); }
    }
  }

  lemma SameWordsBooted(s: VmState, t: VmState)
    requires Booted(s) && t == s.(frames := t.frames) && t.frames.total == s.frames.total
    ensures Booted(t)
  {
    forall i | 0 <= i < ENTRIES ensures Pde(t, i) == BootEntry(t.tables, i) {
      assert Pde(s, i) == BootEntry(s.tables, i);
    }
  }

  /** After vmm_init, in every run of mapping, unmapping, frame taking and stores by other code the
      translation is that of the flat map and the paging code leaves the frames in `kept` alone,
      if and only if these frames, the directory and the four static tables are reserved. */
  lemma PagingIsSafeExactly(s: VmState, kept: set<nat>)
    requires Booted(s) && WellFormed(s.frames) && Placed(s, kept) && OtherFramesZeroed(s, kept)
    ensures AlwaysSafe(s, kept) <==> AllReserved(s, kept)
  {
    if AllReserved(s, kept) {
      ReservedIsSafe(s, kept);
    } else {
      var f: nat :| Precious(s, kept, f) && !Reserved(s, f);
      UnreservedIsUnsafe(s, kept, f);
    }
  }

  // ---------------------------------------------------------------- the frame bitmap

  /** The bitmap starts at 2 MB, which vmm_init maps at 0xC0200000. */
  const BITMAP_FRAME := 512

  /** The frames of the bitmap, which has one bit per managed frame. */
  function BitmapFrames(f: Frames): set<nat> {
    set k: nat | k < BITMAP_FRAME + BitmapBytes(f) && HoldsBits(f, k)
  }

  function BitmapBytes(f: Frames): nat {
    (f.total + 7) / 8
  }

  /** Frame `k` contains a byte of the bitmap. */
  predicate HoldsBits(f: Frames, k: nat) {
    BITMAP_FRAME <= k && (k - BITMAP_FRAME) * PAGE_SIZE < BitmapBytes(f)
  }

  /** The bitmap's virtual addresses lead to these frames. */
  lemma BitmapAddress(s: VmState, k: nat)
    requires Booted(s) && WellFormed(s.frames) && BITMAP_FRAME + k in BitmapFrames(s.frames)
    ensures 0xC020_0000 + k * PAGE_SIZE < 0xC100_0000
    ensures Backed(s) && GetPhys(s, 0xC020_0000 + k * PAGE_SIZE) == (BITMAP_FRAME + k) * PAGE_SIZE
  {
    assert k < 32;
    BootTranslation(s, 0xC020_0000 + k * PAGE_SIZE);
  }

  lemma ReservedInParts(s: VmState, kept: set<nat>)
    ensures AllReserved(s, kept) <==> KernelReserved(s) && forall f :: f in kept ==> Reserved(s, f)
  {
    if AllReserved(s, kept) {
      forall f: nat | KernelFrame(s, f) ensures Reserved(s, f) { assert Precious(s, kept, f); }
      forall f | f in kept ensures Reserved(s, f) { assert Precious(s, kept, f); }
    }
  }

  /** Paging keeps its promise and spares the frame bitmap in every run if and only if the frames
      of the directory, of the static tables and of the bitmap are reserved. */
  lemma BootIsSafeExactly(s: VmState)
    requires Booted(s) && WellFormed(s.frames) && OtherFramesZeroed(s, BitmapFrames(s.frames))
    requires forall f :: f in BitmapFrames(s.frames) ==> Inside(s, f) && !KernelFrame(s, f)
    ensures AlwaysSafe(s, BitmapFrames(s.frames)) <==>
            KernelReserved(s) && forall f :: f in BitmapFrames(s.frames) ==> Reserved(s, f)
  {
    var kept := BitmapFrames(s.frames);
    PagingIsSafeExactly(s, kept);
    ReservedInParts(s, kept);
  }

  /** The boot of 128 MB with everything below 2 MB taken: the next table is the bitmap itself. */
  lemma BitmapBecomesTable(s: VmState, v: u32, phys: u32, flags: u32)
    requires Booted(s) && s.frames.total == 32768 && (forall k: nat :: k in s.frames.used <==> k < BITMAP_FRAME)
    requires KernelReserved(s) && Aligned(v, phys) && Canon(Directory(v)) >= 4
    ensures Backed(s) && Map(s, v, phys, flags).1 == 0 && BITMAP_FRAME in BitmapFrames(s.frames)
    ensures Inside(Map(s, v, phys, flags).0, BITMAP_FRAME)
    ensures Word(Map(s, v, phys, flags).0, BITMAP_FRAME, Table(v)) == Or32(phys, flags)
  {
    var r := LeastFree(s.frames, 0);
    assert BITMAP_FRAME !in s.frames.used;
    assert r >= BITMAP_FRAME && r <= BITMAP_FRAME;
    AllocExact(s.frames);
    assert !Reserved(s, BITMAP_FRAME);
    FrameOverwritten(s, v, phys, flags);
  }

  // ---------------------------------------------------------------- reaching a table

  /** The virtual address that equals the physical address of frame `f` leads to that frame.  The
      kernel stores into page tables through such addresses. */
  predicate Reaches(s: VmState, f: nat)
    requires Backed(s) && f * PAGE_SIZE < U32_LIMIT
  {
    var e := Mapping(s, f * PAGE_SIZE);
    e.Some? && Frame(e.value) == f
  }

  /** After vmm_init exactly the frames below 16 MB are reached. */
  lemma BootReaches(s: VmState, f: nat)
    requires Booted(s) && f * PAGE_SIZE < U32_LIMIT
    ensures Backed(s) && (Reaches(s, f) <==> f < 4 * ENTRIES)
  {
    var w: u32 := f * PAGE_SIZE;
    BootedIsBacked(s);
    BootEntries(s, Directory(w));
    StaticRange(w);
    if Canon(Directory(w)) < 4 { BootWord(s, Canon(Directory(w)), Table(w)); }
  }

  /** So the first table that vmm_map creates is reached exactly if its frame is below 16 MB. */
  lemma NewTableReached(s: VmState, i: nat)
    requires Booted(s) && Consistent(s) && i < ENTRIES && !Present(Pde(s, i)) && CanAddTable(s.frames)
    ensures 0 < Alloc(s.frames).1 < U32_LIMIT && Backed(AddTable(s, i))
    ensures Frame(Alloc(s.frames).1) * PAGE_SIZE == Alloc(s.frames).1
    ensures Reaches(AddTable(s, i), Frame(Alloc(s.frames).1)) <==> Frame(Alloc(s.frames).1) < 4 * ENTRIES
  {
    AllocExact(s.frames);
    var f := Frame(Alloc(s.frames).1);
    NewTableIsClean(s, i, f * PAGE_SIZE);
    BootReaches(s, f);
  }

  /** In every run a frame is reached exactly if the flat map sends its address to it. */
  lemma RunReaches(trace: seq<VmState>, calls: seq<Call>, results: seq<int>, i: nat, f: nat)
    requires VmRun(trace, calls, results) && i < |trace| && f * PAGE_SIZE < U32_LIMIT
    ensures Backed(trace[i])
    ensures
      var e := Lookup(FlatAfter(calls, results, i), f * PAGE_SIZE);
      Reaches(trace[i], f) <==> e.Some? && Frame(e.value) == f
  {
    RunRefinesFlat(trace, calls, results, i, f * PAGE_SIZE);
  }

  // ---------------------------------------------------------------- the first new table

  /** While frame 0 is free, a vmm_map that needs a table fails although there are frames, and
      takes frame 0; the same call then succeeds exactly if another frame is left. */
  lemma FirstTableFails(s: VmState, v: u32, phys: u32, flags: u32)
    requires DirectoryOk(s) && Aligned(v, phys) && !Present(Pde(s, Directory(v)))
    requires 0 !in s.frames.used && s.frames.total > 0
    ensures var (s', status) := Map(s, v, phys, flags);
      && status == -1 && s' == s.(frames := s.frames.(used := s.frames.used + {0}))
      && DirectoryOk(s') && (Map(s', v, phys, flags).1 == 0 <==> !Exhausted(s'.frames))
  {
    AllocExact(s.frames);
    MapIsSetEntry(s, v, phys, flags);
    TakeFrame(s, v);
    MapFailsExactly(Map(s, v, phys, flags).0, v, phys, flags);
  }
}
