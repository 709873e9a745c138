/** What paging operations do to the whole address space, and runs of them. */
module VmmRuns {
  import opened Words
  import opened Pmm
  import opened PmmRuns
  import opened Vmm

  // ---------------------------------------------------------------- aliases

  /** The first directory index that uses the same table as index `i`. */
  function Canon(i: nat): nat {
    if HIGH_INDEX <= i < HIGH_INDEX + 4 then i - HIGH_INDEX else i
  }

  /** `v` and `w` lie in the same page, or in the two aliases of one of the first 4096 pages. */
  predicate SamePage(v: u32, w: u32) {
    Canon(Directory(v)) == Canon(Directory(w)) && Table(v) == Table(w)
  }

  /** The numbers of the pages: aliases have the same number. */
  function PageNumber(v: u32): nat {
    Canon(Directory(v)) * ENTRIES + Table(v)
  }

  // ---------------------------------------------------------------- the invariant

  /** The allocator will not hand out frame `f`. */
  predicate Reserved(s: VmState, f: nat) {
    f in s.frames.used || f >= s.frames.total
  }

  /** The directory and the four static tables. */
  predicate KernelFrame(s: VmState, f: nat) {
    f == s.directory || s.tables <= f < s.tables + 4
  }

  ghost predicate KernelReserved(s: VmState) {
    forall f: nat :: KernelFrame(s, f) ==> Reserved(s, f)
  }

  /** Entry `i` points to an allocated frame, not to the directory; a static table may also lie
      beyond the frames that the allocator manages. */
  predicate EntryReserved(s: VmState, i: nat)
    requires Shaped(s) && i < ENTRIES
  {
    Present(Pde(s, i)) ==>
      && Frame(Pde(s, i)) != s.directory
      && (Frame(Pde(s, i)) in s.frames.used || (Canon(i) < 4 && Frame(Pde(s, i)) >= s.frames.total))
  }

  /** Two entries share a table exactly when they are aliases. */
  predicate EntriesApart(s: VmState, i: nat, j: nat)
    requires Shaped(s) && i < ENTRIES && j < ENTRIES
  {
    Present(Pde(s, i)) && Present(Pde(s, j)) ==> (Frame(Pde(s, i)) == Frame(Pde(s, j)) <==> Canon(i) == Canon(j))
  }

  predicate StaticPresent(s: VmState, i: nat)
    requires Shaped(s) && i < 4
  {
    Present(Pde(s, i)) && Present(Pde(s, HIGH_INDEX + i))
  }

  /** The directory is well formed, up to what free frames contain. */
  ghost predicate DirectoryOk(s: VmState) {
    && Backed(s) && WellFormed(s.frames) && Reserved(s, s.directory)
    && (forall i :: 0 <= i < ENTRIES ==> EntryReserved(s, i))
    && (forall i, j :: 0 <= i < ENTRIES && 0 <= j < ENTRIES ==> EntriesApart(s, i, j))
    && (forall i :: 0 <= i < 4 ==> StaticPresent(s, i))
  }

  /** Frame `f` holds zeros only. */
  predicate Zeroed(s: VmState, f: nat) {
    Inside(s, f) && forall k :: 0 <= k < ENTRIES ==> Word(s, f, k) == 0
  }

  /** Free frames hold zeros only: the kernel never clears a new table. */
  ghost predicate FreeFramesZeroed(s: VmState) {
    forall f: nat :: !Reserved(s, f) ==> Zeroed(s, f)
  }

  ghost predicate Consistent(s: VmState) {
    DirectoryOk(s) && FreeFramesZeroed(s)
  }

  // ---------------------------------------------------------------- what keeps the invariant

  /** `s'` has the directory of `s`, and at least its allocated frames. */
  ghost predicate SameDirectory(s: VmState, s': VmState) {
    && Shaped(s) && Shaped(s') && s'.directory == s.directory && |s'.words| == |s.words|
    && WellFormed(s'.frames) && s'.frames.total == s.frames.total && s.frames.used <= s'.frames.used
    && forall i :: 0 <= i < ENTRIES ==> SamePde(s, s', i)
  }

  predicate SamePde(s: VmState, s': VmState, i: nat)
    requires Shaped(s) && Shaped(s') && i < ENTRIES
  {
    Pde(s', i) == Pde(s, i)
  }

  lemma SameDirectoryIsOk(s: VmState, s': VmState)
    requires DirectoryOk(s) && SameDirectory(s, s')
    ensures DirectoryOk(s')
  {
    forall a | 0 <= a < ENTRIES ensures EntryBacked(s', a) && EntryReserved(s', a) {
      assert SamePde(s, s', a) && EntryBacked(s, a) && EntryReserved(s, a);
    }
    forall a, b | 0 <= a < ENTRIES && 0 <= b < ENTRIES ensures EntriesApart(s', a, b) {
      assert SamePde(s, s', a) && SamePde(s, s', b) && EntriesApart(s, a, b);
    }
    forall a | 0 <= a < 4 ensures StaticPresent(s', a) {
      assert SamePde(s, s', a) && SamePde(s, s', HIGH_INDEX + a) && StaticPresent(s, a);
    }
  }

  /** A write elsewhere leaves the directory as it is. */
  lemma WriteElsewhere(s: VmState, f: nat, k: nat, e: u32)
    requires Shaped(s) && WellFormed(s.frames) && Inside(s, f) && k < ENTRIES && f != s.directory
    ensures SameDirectory(s, Write(s, f, k, e))
  {
    var s' := Write(s, f, k, e);
    forall i | 0 <= i < ENTRIES ensures SamePde(s, s', i) {
      WordAfterWrite(s, f, k, e, s.directory, i);
    }
  }

  /** A write into a reserved frame keeps the free ones zeroed. */
  lemma WriteKeepsZeroed(s: VmState, f: nat, k: nat, e: u32)
    requires FreeFramesZeroed(s) && Inside(s, f) && k < ENTRIES && Reserved(s, f)
    ensures FreeFramesZeroed(Write(s, f, k, e))
  {
    var s' := Write(s, f, k, e);
    forall g: nat | !Reserved(s', g) ensures Zeroed(s', g) {
      assert !Reserved(s, g) && Zeroed(s, g);
      forall n | 0 <= n < ENTRIES ensures Word(s', g, n) == 0 {
        WordAfterWrite(s, f, k, e, g, n);
        assert Word(s, g, n) == 0;
      }
    }
  }

  /** Taking a frame keeps the free ones zeroed. */
  lemma TakeKeepsZeroed(s: VmState)
    requires FreeFramesZeroed(s)
    ensures FreeFramesZeroed(s.(frames := Alloc(s.frames).0))
  {
    var s' := s.(frames := Alloc(s.frames).0);
    forall g: nat | !Reserved(s', g) ensures Zeroed(s', g) {
      assert !Reserved(s, g) && Zeroed(s, g);
      forall n | 0 <= n < ENTRIES ensures Word(s', g, n) == 0 { assert Word(s, g, n) == 0; }
    }
  }

  // ---------------------------------------------------------------- the two kinds of update

  /** Aliases are present together. */
  lemma AliasPresent(s: VmState, i: nat, j: nat)
    requires DirectoryOk(s) && i < ENTRIES && j < ENTRIES && Canon(i) == Canon(j)
    ensures Present(Pde(s, i)) <==> Present(Pde(s, j))
  {
    assert Canon(i) < 4 ==> StaticPresent(s, Canon(i));
  }

  /** Entry `k` of the table of directory entry `i` set to `e`. */
  function SetEntry(s: VmState, i: nat, k: nat, e: u32): VmState
    requires Backed(s) && i < ENTRIES && k < ENTRIES && Present(Pde(s, i))
  {
    assert EntryBacked(s, i);
    Write(s, Frame(Pde(s, i)), k, e)
  }

  /** Writing one entry of a present table keeps the directory. */
  lemma SetEntryKeepsDirectory(s: VmState, i: nat, k: nat, e: u32)
    requires DirectoryOk(s) && i < ENTRIES && k < ENTRIES && Present(Pde(s, i))
    ensures DirectoryOk(SetEntry(s, i, k, e)) && SameDirectory(s, SetEntry(s, i, k, e))
  {
    assert EntryBacked(s, i) && EntryReserved(s, i);
    WriteElsewhere(s, Frame(Pde(s, i)), k, e);
    SameDirectoryIsOk(s, SetEntry(s, i, k, e));
  }

  /** It changes the translation of one page and its alias. */
  lemma SetEntryEffect(s: VmState, v: u32, e: u32, w: u32)
    requires DirectoryOk(s) && Present(Pde(s, Directory(v)))
    ensures var s' := SetEntry(s, Directory(v), Table(v), e);
      DirectoryOk(s') && Mapping(s', w) ==
        if SamePage(v, w) then (if Present(e) then Some(e) else None) else Mapping(s, w)
  {
    var i, j := Directory(v), Directory(w);
    assert EntryBacked(s, i) && EntryBacked(s, j) && EntriesApart(s, i, j);
    SetEntryKeepsDirectory(s, i, Table(v), e);
    assert SamePde(s, SetEntry(s, i, Table(v), e), j);
    if Present(Pde(s, j)) { WordAfterWrite(s, Frame(Pde(s, i)), Table(v), e, Frame(Pde(s, j)), Table(w)); }
    if Canon(i) == Canon(j) { AliasPresent(s, i, j); }
  }

  lemma SetEntryKeepsZeroed(s: VmState, i: nat, k: nat, e: u32)
    requires Consistent(s) && i < ENTRIES && k < ENTRIES && Present(Pde(s, i))
    ensures Consistent(SetEntry(s, i, k, e))
  {
    assert EntryBacked(s, i) && EntryReserved(s, i);
    SetEntryKeepsDirectory(s, i, k, e);
    WriteKeepsZeroed(s, Frame(Pde(s, i)), k, e);
  }

  /** The frame that pmm_alloc hands out next serves as table of directory entry `i`. */
  function AddTable(s: VmState, i: nat): VmState
    requires Shaped(s) && i < ENTRIES && Alloc(s.frames).1 < U32_LIMIT
  {
    Write(s.(frames := Alloc(s.frames).0), s.directory, i, Or32(Alloc(s.frames).1, PRESENT_WRITE))
  }

  /** pmm_alloc has a frame other than frame 0 to give. */
  ghost predicate CanAddTable(f: Frames) {
    !Exhausted(f) && 0 in f.used
  }

  /** One directory entry is new, the others are as before. */
  lemma AddTableEntries(s: VmState, i: nat, a: nat)
    requires Shaped(s) && WellFormed(s.frames) && i < ENTRIES && a < ENTRIES && CanAddTable(s.frames)
    ensures 0 < Alloc(s.frames).1 < U32_LIMIT && Shaped(AddTable(s, i))
    ensures var (e, f) := (Pde(AddTable(s, i), a), Frame(Alloc(s.frames).1));
      && Inside(s, f) && f !in s.frames.used && f < s.frames.total
      && AddTable(s, i).frames == s.frames.(used := s.frames.used + {f})
      && (a != i ==> e == Pde(s, a))
      && (a == i ==> Present(e) && Frame(e) == f)
  {
    AllocExact(s.frames);
    TableEntry(Alloc(s.frames).1);
    WordAfterWrite(s.(frames := Alloc(s.frames).0), s.directory, i, Or32(Alloc(s.frames).1, PRESENT_WRITE), s.directory, a);
  }

  lemma AddTableKeepsDirectory(s: VmState, i: nat)
    requires DirectoryOk(s) && i < ENTRIES && !Present(Pde(s, i)) && CanAddTable(s.frames)
    ensures 0 < Alloc(s.frames).1 < U32_LIMIT && DirectoryOk(AddTable(s, i))
  {
    AllocExact(s.frames);
    var s' := AddTable(s, i);
    forall a | 0 <= a < ENTRIES ensures EntryBacked(s', a) && EntryReserved(s', a) {
      AddTableEntries(s, i, a);
      assert EntryBacked(s, a) && EntryReserved(s, a);
    }
    forall a, b | 0 <= a < ENTRIES && 0 <= b < ENTRIES ensures EntriesApart(s', a, b) {
      AddTableEntries(s, i, a);
      AddTableEntries(s, i, b);
      assert EntriesApart(s, a, b) && EntryReserved(s, a) && EntryReserved(s, b);
      if (a == i) != (b == i) && Canon(a) == Canon(b) { AliasPresent(s, a, b); }
    }
    forall a | 0 <= a < 4 ensures StaticPresent(s', a) {
      AddTableEntries(s, i, a);
      AddTableEntries(s, i, HIGH_INDEX + a);
      assert StaticPresent(s, a);
    }
  }

  /** A new table shows whatever its frame held, in its own 4 MB range, and nothing else moves. */
  lemma AddTableEffect(s: VmState, i: nat, w: u32)
    requires DirectoryOk(s) && i < ENTRIES && !Present(Pde(s, i)) && CanAddTable(s.frames)
    ensures 0 < Alloc(s.frames).1 < U32_LIMIT
    ensures var (s', f) := (AddTable(s, i), Frame(Alloc(s.frames).1));
      && DirectoryOk(s') && Present(Pde(s', i)) && Frame(Pde(s', i)) == f && Inside(s, f)
      && Mapping(s', w) ==
           if Directory(w) != i then Mapping(s, w)
           else if Present(Word(s, f, Table(w))) then Some(Word(s, f, Table(w))) else None
  {
    AddTableKeepsDirectory(s, i);
    var s', j := AddTable(s, i), Directory(w);
    AddTableEntries(s, i, i);
    AddTableEntries(s, i, j);
    assert EntryBacked(s', j) && EntryReserved(s', j) && EntryBacked(s, j);
    if Present(Pde(s', j)) {
      WordAfterWrite(s.(frames := Alloc(s.frames).0), s.directory, i, Or32(Alloc(s.frames).1, PRESENT_WRITE),
                     Frame(Pde(s', j)), Table(w));
    }
  }

  // ---------------------------------------------------------------- vmm_map

  predicate Aligned(v: u32, phys: u32) {
    v % PAGE_SIZE == 0 && phys % PAGE_SIZE == 0
  }

  /** What a mapping request makes of the entry. */
  function Requested(phys: u32, flags: u32): Option<u32> {
    if Present(flags) then Some(Or32(phys, flags)) else None
  }

  lemma RequestedEntry(phys: u32, flags: u32)
    requires phys % PAGE_SIZE == 0
    ensures Present(Or32(phys, flags)) <==> Present(flags)
    ensures Or32(phys, flags) / PAGE_SIZE == BitOr(phys / PAGE_SIZE, flags / PAGE_SIZE)
  {
    var e := Or32(phys, flags);
    assert phys == phys / PAGE_SIZE * PAGE_SIZE;
    BitOrPage(phys / PAGE_SIZE, flags);
    LowBit(e);
    LowBit(flags);
  }

  lemma LowBit(e: u32)
    ensures Present(e) <==> Present(e % PAGE_SIZE)
  {
    assert e == 2 * (PAGE_SIZE / 2 * (e / PAGE_SIZE)) + e % PAGE_SIZE;
  }

  /** vmm_map is one entry write, after a new table where there was none. */
  lemma MapIsSetEntry(s: VmState, v: u32, phys: u32, flags: u32)
    requires DirectoryOk(s) && Aligned(v, phys)
    ensures var i := Directory(v);
      if Present(Pde(s, i)) then Map(s, v, phys, flags) == (SetEntry(s, i, Table(v), Or32(phys, flags)), 0)
      else if CanAddTable(s.frames) then
        && 0 < Alloc(s.frames).1 < U32_LIMIT && DirectoryOk(AddTable(s, i)) && Present(Pde(AddTable(s, i), i))
        && Map(s, v, phys, flags) == (SetEntry(AddTable(s, i), i, Table(v), Or32(phys, flags)), 0)
      else Map(s, v, phys, flags) == (s.(frames := Alloc(s.frames).0), -1)
  {
    AllocExact(s.frames);
    if !Present(Pde(s, Directory(v))) && CanAddTable(s.frames) {
      AddTableEffect(s, Directory(v), v);
    }
  }

  /** A failing vmm_map at most takes a frame. */
  lemma TakeFrame(s: VmState, w: u32)
    requires DirectoryOk(s)
    ensures var s' := s.(frames := Alloc(s.frames).0);
      && DirectoryOk(s') && Mapping(s', w) == Mapping(s, w)
      && (FreeFramesZeroed(s) ==> FreeFramesZeroed(s'))
  {
    AllocExact(s.frames);
    var s' := s.(frames := Alloc(s.frames).0);
    assert SameDirectory(s, s') by {
      forall i | 0 <= i < ENTRIES ensures SamePde(s, s', i) { }
    }
    SameDirectoryIsOk(s, s');
    if FreeFramesZeroed(s) { TakeKeepsZeroed(s); }
  }

  /** vmm_map fails exactly on unaligned arguments, or when it needs a table and pmm_alloc
      returns 0: out of frames, or about to hand out frame 0. */
  lemma MapFailsExactly(s: VmState, v: u32, phys: u32, flags: u32)
    requires DirectoryOk(s)
    ensures var (s', status) := Map(s, v, phys, flags);
      && (status == 0 || status == -1) && (status == -1 ==> s'.words == s.words)
      && (status == 0 <==> Aligned(v, phys) && (Present(Pde(s, Directory(v))) || CanAddTable(s.frames)))
  {
  }

  /** A successful vmm_map changes the translation of its page and the alias of that page, and
      of nothing else; a failing one changes no translation. */
  lemma MapEffect(s: VmState, v: u32, phys: u32, flags: u32, w: u32)
    requires Consistent(s)
    ensures var (s', status) := Map(s, v, phys, flags);
      && Consistent(s')
      && Mapping(s', w) == if status == 0 && SamePage(v, w) then Requested(phys, flags) else Mapping(s, w)
  {
    var i := Directory(v);
    if Aligned(v, phys) {
      MapIsSetEntry(s, v, phys, flags);
      RequestedEntry(phys, flags);
      if Present(Pde(s, i)) {
        SetEntryEffect(s, v, Or32(phys, flags), w);
        SetEntryKeepsZeroed(s, i, Table(v), Or32(phys, flags));
      } else if CanAddTable(s.frames) {
        NewTableIsClean(s, i, w);
        SetEntryEffect(AddTable(s, i), v, Or32(phys, flags), w);
        SetEntryKeepsZeroed(AddTable(s, i), i, Table(v), Or32(phys, flags));
      } else {
        TakeFrame(s, w);
      }
    }
  }

  /** With zeroed free frames a new table maps nothing. */
  lemma NewTableIsClean(s: VmState, i: nat, w: u32)
    requires Consistent(s) && i < ENTRIES && !Present(Pde(s, i)) && CanAddTable(s.frames)
    ensures 0 < Alloc(s.frames).1 < U32_LIMIT && Consistent(AddTable(s, i))
    ensures Mapping(AddTable(s, i), w) == Mapping(s, w)
  {
    AllocExact(s.frames);
    AddTableEffect(s, i, w);
    var f := Frame(Alloc(s.frames).1);
    assert !Reserved(s, f) && Zeroed(s, f);
    assert Word(s, f, Table(w)) == 0;
    TakeKeepsZeroed(s);
    WriteKeepsZeroed(s.(frames := Alloc(s.frames).0), s.directory, i, Or32(Alloc(s.frames).1, PRESENT_WRITE));
  }

  /** What a vmm_map that creates a table makes of another page. */
  lemma OtherPage(s: VmState, v: u32, phys: u32, flags: u32, w: u32)
    requires DirectoryOk(s) && Aligned(v, phys) && !Present(Pde(s, Directory(v))) && CanAddTable(s.frames)
    requires !SamePage(v, w)
    ensures var (s', f) := (Map(s, v, phys, flags).0, Frame(Alloc(s.frames).1));
      && Backed(s') && Inside(s, f)
      && Mapping(s', w) ==
           if Directory(w) != Directory(v) then Mapping(s, w)
           else if Present(Word(s, f, Table(w))) then Some(Word(s, f, Table(w))) else None
  {
    MapIsSetEntry(s, v, phys, flags);
    AddTableEffect(s, Directory(v), w);
    SetEntryEffect(AddTable(s, Directory(v)), v, Or32(phys, flags), w);
  }

  lemma AddressOf(i: nat, k: nat)
    requires i < ENTRIES && k < ENTRIES
    ensures i * TABLE_SPAN + k * PAGE_SIZE < U32_LIMIT
    ensures Directory(i * TABLE_SPAN + k * PAGE_SIZE) == i && Table(i * TABLE_SPAN + k * PAGE_SIZE) == k
  {
  }

  /** An old entry in the new table's frame changes the translation of another page. */
  lemma OldEntryShows(s: VmState, v: u32, phys: u32, flags: u32, k: nat)
    requires DirectoryOk(s) && Aligned(v, phys) && !Present(Pde(s, Directory(v))) && CanAddTable(s.frames)
    requires Inside(s, Frame(Alloc(s.frames).1)) && k < ENTRIES && k != Table(v)
    requires Present(Word(s, Frame(Alloc(s.frames).1), k))
    ensures Backed(Map(s, v, phys, flags).0)
    ensures exists w: u32 :: !SamePage(v, w) && Mapping(Map(s, v, phys, flags).0, w) != Mapping(s, w)
  {
    AddressOf(Directory(v), k);
    var w: u32 := Directory(v) * TABLE_SPAN + k * PAGE_SIZE;
    OtherPage(s, v, phys, flags, w);
    assert !SamePage(v, w);
  }

  lemma CleanTable(s: VmState, v: u32, phys: u32, flags: u32)
    requires DirectoryOk(s) && Aligned(v, phys) && !Present(Pde(s, Directory(v))) && CanAddTable(s.frames)
    requires Inside(s, Frame(Alloc(s.frames).1)) && Backed(Map(s, v, phys, flags).0)
    requires forall k :: 0 <= k < ENTRIES && k != Table(v) ==> !Present(Word(s, Frame(Alloc(s.frames).1), k))
    ensures forall w: u32 :: !SamePage(v, w) ==> Mapping(Map(s, v, phys, flags).0, w) == Mapping(s, w)
  {
    forall w: u32 | !SamePage(v, w) ensures Mapping(Map(s, v, phys, flags).0, w) == Mapping(s, w) {
      OtherPage(s, v, phys, flags, w);
      assert Directory(w) == Directory(v) ==> Table(w) != Table(v);
    }
  }

  /** Whether vmm_map leaves the other pages alone without any assumption on free frames: when
      it creates a table, exactly if the new frame holds no present entry in another slot. */
  lemma FramingExact(s: VmState, v: u32, phys: u32, flags: u32)
    requires DirectoryOk(s) && Aligned(v, phys) && !Present(Pde(s, Directory(v))) && CanAddTable(s.frames)
    ensures 0 < Alloc(s.frames).1 < U32_LIMIT
    ensures var (s', f) := (Map(s, v, phys, flags).0, Frame(Alloc(s.frames).1));
      && Backed(s') && Inside(s, f)
      && ((forall w: u32 :: !SamePage(v, w) ==> Mapping(s', w) == Mapping(s, w)) <==>
          (forall k :: 0 <= k < ENTRIES && k != Table(v) ==> !Present(Word(s, f, k))))
  {
    AllocExact(s.frames);
    MapIsSetEntry(s, v, phys, flags);
    AddTableEffect(s, Directory(v), v);
    SetEntryEffect(AddTable(s, Directory(v)), v, Or32(phys, flags), v);
    var f := Frame(Alloc(s.frames).1);
    if k :| 0 <= k < ENTRIES && k != Table(v) && Present(Word(s, f, k)) {
      OldEntryShows(s, v, phys, flags, k);
    } else {
      CleanTable(s, v, phys, flags);
    }
  }

  /** After a successful vmm_map, vmm_get_phys returns the address that was mapped exactly when
      the request carries PRESENT and no flag bit outside the address's own upper bits; a
      request without PRESENT reads back as 0. */
  lemma MapThenGetPhys(s: VmState, v: u32, phys: u32, flags: u32)
    requires Consistent(s) && Map(s, v, phys, flags).1 == 0
    ensures Backed(Map(s, v, phys, flags).0)
    ensures GetPhys(Map(s, v, phys, flags).0, v) == phys <==>
            if flags % 2 == 1 then BitOr(phys / 4096, flags / 4096) == phys / 4096 else phys == 0
    ensures flags % 2 == 1 && flags < 4096 ==> GetPhys(Map(s, v, phys, flags).0, v) == phys
  {
    MapFailsExactly(s, v, phys, flags);
    MapEffect(s, v, phys, flags, v);
    RequestedEntry(phys, flags);
  }

  // ---------------------------------------------------------------- vmm_unmap

  /** vmm_unmap succeeds exactly on a mapped page, and then unmaps that page and its alias. */
  lemma UnmapEffect(s: VmState, v: u32, w: u32)
    requires Consistent(s)
    ensures var (s', status) := Unmap(s, v);
      && Consistent(s') && (status == 0 || status == -1) && (status == 0 <==> Mapping(s, v).Some?)
      && Mapping(s', w) == if status == 0 && SamePage(v, w) then None else Mapping(s, w)
  {
    if Mapping(s, v).Some? {
      SetEntryEffect(s, v, 0, w);
      SetEntryKeepsZeroed(s, Directory(v), Table(v), 0);
    }
  }

  /** Mapping an unmapped page and unmapping it again restores every translation. */
  lemma UnmapUndoesMap(s: VmState, v: u32, phys: u32, flags: u32, w: u32)
    requires Consistent(s) && Mapping(s, v) == None && Present(flags) && Map(s, v, phys, flags).1 == 0
    ensures var s' := Map(s, v, phys, flags).0;
      Backed(s') && Unmap(s', v).1 == 0 && Backed(Unmap(s', v).0) && Mapping(Unmap(s', v).0, w) == Mapping(s, w)
  {
    var s' := Map(s, v, phys, flags).0;
    MapEffect(s, v, phys, flags, v);
    MapEffect(s, v, phys, flags, w);
    UnmapEffect(s', v, w);
    if SamePage(v, w) { AliasMapping(s, v, w); }
  }

  /** The two aliases of a page translate alike. */
  lemma AliasMapping(s: VmState, v: u32, w: u32)
    requires DirectoryOk(s) && SamePage(v, w)
    ensures Mapping(s, v) == Mapping(s, w)
  {
    var i, j := Directory(v), Directory(w);
    AliasPresent(s, i, j);
    assert EntriesApart(s, i, j);
  }

  // ---------------------------------------------------------------- the boot mapping

  lemma BootEntries(s: VmState, i: nat)
    requires Booted(s) && i < ENTRIES
    ensures Present(Pde(s, i)) <==> Canon(i) < 4
    ensures Canon(i) < 4 ==> Frame(Pde(s, i)) == s.tables + Canon(i)
  {
    assert Pde(s, i) == BootEntry(s.tables, i);
    if Canon(i) < 4 { TableEntry((s.tables + Canon(i)) * PAGE_SIZE); }
  }

  lemma BootWord(s: VmState, k: nat, n: nat)
    requires Booted(s) && k < 4 && n < ENTRIES
    ensures Word(s, s.tables + k, n) == IdentityEntry(k * ENTRIES + n)
    ensures Present(Word(s, s.tables + k, n)) && Frame(Word(s, s.tables + k, n)) == k * ENTRIES + n
  {
    assert s.words[s.tables * ENTRIES + (k * ENTRIES + n)] == IdentityEntry(k * ENTRIES + n);
    TableEntry((k * ENTRIES + n) * PAGE_SIZE);
  }

  /** Which addresses use the static tables, and which entry of them. */
  lemma StaticRange(w: u32)
    ensures Canon(Directory(w)) < 4 <==> w < 0x100_0000 || 0xC000_0000 <= w < 0xC100_0000
    ensures w < 0x100_0000 ==> PageNumber(w) == w / PAGE_SIZE
    ensures 0xC000_0000 <= w < 0xC100_0000 ==> PageNumber(w) == (w - 0xC000_0000) / PAGE_SIZE
  {
  }

  /** After vmm_init every address below 16 MB, and its counterpart 3 GB higher, translates to
      its own page-aligned physical base, and every other address translates to 0. */
  lemma BootTranslation(s: VmState, w: u32)
    requires Booted(s)
    ensures Backed(s) && GetPhys(s, w) ==
      if w < 0x100_0000 then w - w % PAGE_SIZE
      else if 0xC000_0000 <= w < 0xC100_0000 then w - 0xC000_0000 - w % PAGE_SIZE
      else 0
  {
    BootedIsBacked(s);
    BootEntries(s, Directory(w));
    StaticRange(w);
    if Canon(Directory(w)) < 4 {
      BootWord(s, Canon(Directory(w)), Table(w));
      assert GetPhys(s, w) == PageNumber(w) * PAGE_SIZE;
    }
  }

  /** The boot directory meets the invariant exactly when the frames of the directory and of the
      static tables are out of the allocator's reach.  pmm_init reserves nothing, so somebody else
      has to see to it. */
  lemma BootDirectoryOk(s: VmState)
    requires Booted(s) && WellFormed(s.frames)
    ensures DirectoryOk(s) <==> KernelReserved(s)
  {
    BootedIsBacked(s);
    forall i | 0 <= i < ENTRIES && KernelReserved(s) ensures EntryReserved(s, i) {
      BootEntries(s, i);
      assert Canon(i) < 4 ==> KernelFrame(s, s.tables + Canon(i));
    }
    assert KernelReserved(s) ==> Reserved(s, s.directory) by { assert KernelFrame(s, s.directory); }
    forall i, j | 0 <= i < ENTRIES && 0 <= j < ENTRIES ensures EntriesApart(s, i, j) {
      BootEntries(s, i);
      BootEntries(s, j);
    }
    forall i | 0 <= i < 4 ensures StaticPresent(s, i) {
      BootEntries(s, i);
      BootEntries(s, HIGH_INDEX + i);
    }
    forall f: nat | KernelFrame(s, f) && DirectoryOk(s) ensures Reserved(s, f) {
      if f != s.directory {
        BootEntries(s, f - s.tables);
        assert EntryReserved(s, f - s.tables);
      }
    }
  }

  /** The state after vmm_map has created a table in the frame that pmm_alloc handed out. */
  lemma MapIntoNewTable(s: VmState, v: u32, phys: u32, flags: u32)
    requires Backed(s) && WellFormed(s.frames) && CanAddTable(s.frames)
    requires Aligned(v, phys) && !Present(Pde(s, Directory(v)))
    ensures 0 < Alloc(s.frames).1 < U32_LIMIT && Inside(s, Frame(Alloc(s.frames).1))
    ensures Map(s, v, phys, flags) ==
            (Write(AddTable(s, Directory(v)), Frame(Alloc(s.frames).1), Table(v), Or32(phys, flags)), 0)
  {
    AllocExact(s.frames);
    AddTableEntries(s, Directory(v), 0);
  }

  /** Unless that frame is the directory's, the new directory is that of AddTable. */
  lemma NewTableDirectory(s: VmState, v: u32, phys: u32, flags: u32)
    requires Backed(s) && WellFormed(s.frames) && CanAddTable(s.frames)
    requires Aligned(v, phys) && !Present(Pde(s, Directory(v))) && Frame(Alloc(s.frames).1) != s.directory
    ensures 0 < Alloc(s.frames).1 < U32_LIMIT && Shaped(AddTable(s, Directory(v)))
    ensures Backed(Map(s, v, phys, flags).0) && SameDirectory(AddTable(s, Directory(v)), Map(s, v, phys, flags).0)
  {
    var i := Directory(v);
    MapIntoNewTable(s, v, phys, flags);
    AddTableEntries(s, i, 0);
    var t, s' := AddTable(s, i), Map(s, v, phys, flags).0;
    WriteElsewhere(t, Frame(Alloc(s.frames).1), Table(v), Or32(phys, flags));
    forall a | 0 <= a < ENTRIES ensures EntryBacked(s', a) {
      AddTableEntries(s, i, a);
      assert EntryBacked(s, a) && SamePde(t, s', a);
    }
  }

  /** What a new table translates: the words that were in its frame, except the one just written. */
  lemma NewTableMapping(s: VmState, v: u32, phys: u32, flags: u32, w: u32)
    requires Backed(s) && WellFormed(s.frames) && CanAddTable(s.frames)
    requires Aligned(v, phys) && !Present(Pde(s, Directory(v))) && Frame(Alloc(s.frames).1) != s.directory
    requires Directory(w) == Directory(v) && Table(w) != Table(v)
    ensures var (s', g) := (Map(s, v, phys, flags).0, Frame(Alloc(s.frames).1));
      && Backed(s') && Inside(s, g)
      && Mapping(s', w) == if Present(Word(s, g, Table(w))) then Some(Word(s, g, Table(w))) else None
  {
    var i, g := Directory(v), Frame(Alloc(s.frames).1);
    MapIntoNewTable(s, v, phys, flags);
    NewTableDirectory(s, v, phys, flags);
    AddTableEntries(s, i, i);
    var t, s' := AddTable(s, i), Map(s, v, phys, flags).0;
    assert SamePde(t, s', i);
    WordAfterWrite(s.(frames := t.frames), s.directory, i, Or32(Alloc(s.frames).1, PRESENT_WRITE), g, Table(w));
    WordAfterWrite(t, g, Table(v), Or32(phys, flags), g, Table(w));
  }

  /** If the allocator hands out the frame of a static table, vmm_map breaks its promise: the
      page next to the requested one becomes mapped too. */
  lemma UnreservedTablesLeak(s: VmState, v: u32, phys: u32, flags: u32, k: nat) returns (w: u32)
    requires Booted(s) && WellFormed(s.frames) && CanAddTable(s.frames) && Aligned(v, phys)
    requires Canon(Directory(v)) >= 4 && k < 4 && Alloc(s.frames).1 == (s.tables + k) * PAGE_SIZE
    ensures Backed(s) && Map(s, v, phys, flags).1 == 0 && Backed(Map(s, v, phys, flags).0)
    ensures w == Directory(v) * TABLE_SPAN + (if Table(v) == 0 then PAGE_SIZE else 0)
    ensures !SamePage(v, w) && Mapping(s, w) == None && Mapping(Map(s, v, phys, flags).0, w).Some?
  {
    var n := if Table(v) == 0 then 1 else 0;
    BootedIsBacked(s);
    BootEntries(s, Directory(v));
    AddressOf(Directory(v), n);
    w := Directory(v) * TABLE_SPAN + n * PAGE_SIZE;
    MapIntoNewTable(s, v, phys, flags);
    NewTableMapping(s, v, phys, flags, w);
    BootWord(s, k, n);
  }

  /** If it hands out the frame of the directory, vmm_map writes the page's entry into the
      directory itself. */
  lemma DirectoryOverwritten(s: VmState, v: u32, phys: u32, flags: u32)
    requires Booted(s) && WellFormed(s.frames) && CanAddTable(s.frames) && Aligned(v, phys)
    requires Canon(Directory(v)) >= 4 && Alloc(s.frames).1 == s.directory * PAGE_SIZE
    ensures Backed(s) && Map(s, v, phys, flags).1 == 0
    ensures Shaped(Map(s, v, phys, flags).0) && Pde(Map(s, v, phys, flags).0, Table(v)) == Or32(phys, flags)
  {
    BootedIsBacked(s);
    BootEntries(s, Directory(v));
    MapIntoNewTable(s, v, phys, flags);
    AddTableEntries(s, Directory(v), 0);
    WordAfterWrite(AddTable(s, Directory(v)), s.directory, Table(v), Or32(phys, flags), s.directory, Table(v));
  }

  // ---------------------------------------------------------------- runs

  /** Other code may store into frame `f`: it cannot be handed out, and it is neither the
      directory nor a table. */
  predicate MayStore(s: VmState, f: nat)
    requires Shaped(s)
  {
    Inside(s, f) && Reserved(s, f) && f != s.directory && forall i :: 0 <= i < ENTRIES ==> NotTheTable(s, f, i)
  }

  predicate NotTheTable(s: VmState, f: nat, i: nat)
    requires Shaped(s) && i < ENTRIES
  {
    Present(Pde(s, i)) ==> Frame(Pde(s, i)) != f
  }

  /** Calls into the paging code, frames taken by other parts of the kernel, and their stores into
      memory that is theirs. */
  datatype Call = MapCall(virt: u32, phys: u32, flags: u32) | UnmapCall(virt: u32) | TakeCall | StoreCall(f: nat, k: nat, e: u32)

  function Do(s: VmState, c: Call): (VmState, int)
    requires Backed(s)
  {
    match c
    case MapCall(v, p, f) => Map(s, v, p, f)
    case UnmapCall(v) => Unmap(s, v)
    case TakeCall => (s.(frames := Alloc(s.frames).0), Alloc(s.frames).1)
    case StoreCall(f, k, e) => if k < ENTRIES && MayStore(s, f) then (Write(s, f, k, e), 0) else (s, -1)
  }

  /** A store elsewhere changes no translation. */
  lemma StoreEffect(s: VmState, f: nat, k: nat, e: u32, w: u32)
    requires Consistent(s) && MayStore(s, f) && k < ENTRIES
    ensures var s' := Write(s, f, k, e); Consistent(s') && SameDirectory(s, s') && Mapping(s', w) == Mapping(s, w)
  {
    var s', j := Write(s, f, k, e), Directory(w);
    WriteElsewhere(s, f, k, e);
    SameDirectoryIsOk(s, s');
    WriteKeepsZeroed(s, f, k, e);
    assert SamePde(s, s', j) && NotTheTable(s, f, j) && EntryBacked(s, j);
    if Present(Pde(s, j)) { WordAfterWrite(s, f, k, e, Frame(Pde(s, j)), Table(w)); }
  }

  /** A run: calls, states and results.  Where the directory is broken nothing is said about
      the outcome of a call. */
  ghost predicate Steps(trace: seq<VmState>, calls: seq<Call>, results: seq<int>) {
    && |trace| == |calls| + 1 && |results| == |calls|
    && forall i :: 0 <= i < |calls| ==> CallAt(trace, calls, results, i)
  }

  /** A run from a consistent boot state; RunIsConsistent shows that it stays consistent. */
  ghost predicate VmRun(trace: seq<VmState>, calls: seq<Call>, results: seq<int>) {
    Steps(trace, calls, results) && Booted(trace[0]) && Consistent(trace[0])
  }

  ghost predicate CallAt(trace: seq<VmState>, calls: seq<Call>, results: seq<int>, i: nat)
    requires |trace| == |calls| + 1 && |results| == |calls| && i < |calls|
  {
    Backed(trace[i]) ==> (trace[i + 1], results[i]) == Do(trace[i], calls[i])
  }

  lemma DoKeepsConsistent(s: VmState, c: Call)
    requires Consistent(s)
    ensures Consistent(Do(s, c).0)
  {
    match c
    case MapCall(v, p, f) => MapEffect(s, v, p, f, v);
    case UnmapCall(v) => UnmapEffect(s, v, v);
    case TakeCall => TakeFrame(s, 0);
    case StoreCall(f, k, e) => if k < ENTRIES && MayStore(s, f) { StoreEffect(s, f, k, e, 0); }
  }

  lemma {:induction false} RunIsConsistent(trace: seq<VmState>, calls: seq<Call>, results: seq<int>, i: nat)
    requires VmRun(trace, calls, results) && i < |trace|
    ensures Consistent(trace[i])
  {
    if i == 0 {
    } else {
      RunIsConsistent(trace, calls, results, i - 1);
      assert CallAt(trace, calls, results, i - 1);
      DoKeepsConsistent(trace[i - 1], calls[i - 1]);
    }
  }

  /** The address space as one flat map from page numbers to entries, kept up to date from the
      calls and their status alone. */
  function FlatAfter(calls: seq<Call>, results: seq<int>, i: nat): map<nat, u32>
    requires i <= |calls| == |results|
  {
    if i == 0 then map k: nat | k < 4 * ENTRIES :: IdentityEntry(k)
    else FlatStep(FlatAfter(calls, results, i - 1), calls[i - 1], results[i - 1])
  }

  function FlatStep(m: map<nat, u32>, c: Call, status: int): map<nat, u32> {
    if status != 0 then m
    else
      match c
      case MapCall(v, p, f) => if Present(f) then m[PageNumber(v) := Or32(p, f)] else m - {PageNumber(v)}
      case UnmapCall(v) => m - {PageNumber(v)}
      case TakeCall => m
      case StoreCall(_, _, _) => m
  }

  function Lookup(m: map<nat, u32>, v: u32): Option<u32> {
    if PageNumber(v) in m then Some(m[PageNumber(v)]) else None
  }

  lemma SamePageNumber(v: u32, w: u32)
    ensures SamePage(v, w) <==> PageNumber(v) == PageNumber(w)
  {
  }

  lemma DoRefinesFlat(s: VmState, c: Call, m: map<nat, u32>, w: u32)
    requires Consistent(s) && Mapping(s, w) == Lookup(m, w)
    ensures var (s', r) := Do(s, c); Backed(s') && Mapping(s', w) == Lookup(FlatStep(m, c, r), w)
  {
    match c {
      case MapCall(v, p, f) => MapEffect(s, v, p, f, w); SamePageNumber(v, w);
      case UnmapCall(v) => UnmapEffect(s, v, w); SamePageNumber(v, w);
      case TakeCall => TakeFrame(s, w);
      case StoreCall(f, k, e) => if k < ENTRIES && MayStore(s, f) { StoreEffect(s, f, k, e, w); }
    }
  }

  /** In every run the two-level tables, created on demand and partly shared, translate like
      the flat map: a successful vmm_map or vmm_unmap is an update of one page number. */
  lemma {:induction false} RunRefinesFlat(trace: seq<VmState>, calls: seq<Call>, results: seq<int>, i: nat, w: u32)
    requires VmRun(trace, calls, results) && i < |trace|
    ensures Backed(trace[i]) && Mapping(trace[i], w) == Lookup(FlatAfter(calls, results, i), w)
  {
    if i == 0 {
      BootEntries(trace[0], Directory(w));
      if Canon(Directory(w)) < 4 { BootWord(trace[0], Canon(Directory(w)), Table(w)); }
    } else {
      RunRefinesFlat(trace, calls, results, i - 1, w);
      RunIsConsistent(trace, calls, results, i - 1);
      assert CallAt(trace, calls, results, i - 1);
      DoRefinesFlat(trace[i - 1], calls[i - 1], FlatAfter(calls, results, i - 1), w);
    }
  }

  /** In every run the first 16 MB and the 16 MB from 3 GB on translate alike. */
  lemma RunKeepsAliases(trace: seq<VmState>, calls: seq<Call>, results: seq<int>, i: nat, p: u32)
    requires VmRun(trace, calls, results) && i < |trace| && p < 0x100_0000
    ensures Backed(trace[i]) && Mapping(trace[i], p) == Mapping(trace[i], p + 0xC000_0000)
  {
    RunIsConsistent(trace, calls, results, i);
    AliasMapping(trace[i], p, p + 0xC000_0000);
  }

  /** After a call a directory entry has kept its value, or it was absent and now points to a frame
      that was free. */
  ghost predicate EntryKept(s: VmState, s': VmState, i: nat)
    requires Shaped(s) && i < ENTRIES
  {
    Shaped(s') && (Pde(s', i) == Pde(s, i) || (!Present(Pde(s, i)) && !Reserved(s, Frame(Pde(s', i)))))
  }

  lemma CallEntry(s: VmState, c: Call, i: nat)
    requires Consistent(s) && i < ENTRIES
    ensures EntryKept(s, Do(s, c).0, i)
  {
    match c {
      case MapCall(v, p, flags) => if Aligned(v, p) { MapEntry(s, v, p, flags, i); }
      case UnmapCall(v) =>
        if Mapping(s, v).Some? {
          SetEntryKeepsDirectory(s, Directory(v), Table(v), 0);
          assert SamePde(s, Do(s, c).0, i);
        }
      case TakeCall =>
      case StoreCall(f, k, e) =>
        if k < ENTRIES && MayStore(s, f) {
          StoreEffect(s, f, k, e, 0);
          assert SamePde(s, Do(s, c).0, i);
        }
    }
  }

  lemma MapEntry(s: VmState, v: u32, p: u32, flags: u32, i: nat)
    requires Consistent(s) && i < ENTRIES && Aligned(v, p)
    ensures EntryKept(s, Map(s, v, p, flags).0, i)
  {
    var j := Directory(v);
    MapIsSetEntry(s, v, p, flags);
    if Present(Pde(s, j)) {
      SetEntryKeepsDirectory(s, j, Table(v), Or32(p, flags));
      assert SamePde(s, Map(s, v, p, flags).0, i);
    } else if CanAddTable(s.frames) {
      AddTableEntries(s, j, i);
      SetEntryKeepsDirectory(AddTable(s, j), j, Table(v), Or32(p, flags));
      assert SamePde(AddTable(s, j), Map(s, v, p, flags).0, i);
    }
  }

  /** In every run a directory entry that is present is never rewritten. */
  lemma {:induction false} RunKeepsDirectory(trace: seq<VmState>, calls: seq<Call>, results: seq<int>, i: nat, j: nat, k: nat)
    requires VmRun(trace, calls, results) && i <= j < |trace| && k < ENTRIES
    ensures Shaped(trace[i]) && Shaped(trace[j])
    ensures Present(Pde(trace[i], k)) ==> Pde(trace[j], k) == Pde(trace[i], k)
    decreases j
  {
    RunIsConsistent(trace, calls, results, j);
    if i == j {
    } else {
      RunKeepsDirectory(trace, calls, results, i, j - 1, k);
      RunIsConsistent(trace, calls, results, j - 1);
      assert CallAt(trace, calls, results, j - 1);
      CallEntry(trace[j - 1], calls[j - 1], k);
    }
  }

  // ---------------------------------------------------------------- how many tables

  /** Directory entries below `n` whose tables were created on demand. */
  function DynamicEntries(s: VmState, n: nat): set<nat>
    requires Shaped(s) && n <= ENTRIES
  {
    set i: nat | i < n && Present(Pde(s, i)) && Canon(i) >= 4
  }

  /** The frames of these tables. */
  function DynamicTables(s: VmState, n: nat): set<nat>
    requires Shaped(s) && n <= ENTRIES
  {
    set i | i in DynamicEntries(s, n) :: Frame(Pde(s, i))
  }

  lemma DynamicEntriesStep(s: VmState, n: nat)
    requires Shaped(s) && n < ENTRIES
    ensures DynamicEntries(s, n + 1) ==
            if Present(Pde(s, n)) && Canon(n) >= 4 then DynamicEntries(s, n) + {n} else DynamicEntries(s, n)
  {
  }

  /** A further entry has a table of its own. */
  lemma FreshTable(s: VmState, n: nat)
    requires DirectoryOk(s) && n < ENTRIES && Present(Pde(s, n)) && Canon(n) >= 4
    ensures Frame(Pde(s, n)) !in DynamicTables(s, n)
    ensures DynamicTables(s, n + 1) == DynamicTables(s, n) + {Frame(Pde(s, n))}
  {
    DynamicEntriesStep(s, n);
    forall i | i in DynamicEntries(s, n) ensures Frame(Pde(s, i)) != Frame(Pde(s, n)) {
      assert EntriesApart(s, i, n);
    }
  }

  lemma BothGrow(a: set<nat>, x: nat, b: set<nat>, y: nat)
    requires |a| == |b| && x !in a && y !in b
    ensures |a + {x}| == |b + {y}|
  {
  }

  /** No two of these entries share a table. */
  lemma {:induction false} OneTableEach(s: VmState, n: nat)
    requires DirectoryOk(s) && n <= ENTRIES
    ensures |DynamicTables(s, n)| == |DynamicEntries(s, n)|
  {
    if n == 0 {
    } else {
      OneTableEach(s, n - 1);
      OneTableMore(s, n - 1);
    }
  }

  lemma OneTableMore(s: VmState, n: nat)
    requires DirectoryOk(s) && n < ENTRIES && |DynamicTables(s, n)| == |DynamicEntries(s, n)|
    ensures |DynamicTables(s, n + 1)| == |DynamicEntries(s, n + 1)|
  {
    DynamicEntriesStep(s, n);
    if Present(Pde(s, n)) && Canon(n) >= 4 {
      FreshTable(s, n);
      BothGrow(DynamicTables(s, n), Frame(Pde(s, n)), DynamicEntries(s, n), n);
    } else {
      assert DynamicTables(s, n + 1) == DynamicTables(s, n);
    }
  }

  lemma {:induction false} DynamicEntriesBelow(s: VmState, n: nat)
    requires Shaped(s) && n <= ENTRIES
    ensures |DynamicEntries(s, n)| + (if n < 4 then n else 4)
         + (if n < HIGH_INDEX then 0 else if n < HIGH_INDEX + 4 then n - HIGH_INDEX else 4) <= n
  {
    if n == 0 {
    } else {
      DynamicEntriesBelow(s, n - 1);
      DynamicEntriesStep(s, n - 1);
    }
  }

  /** In every run two present directory entries have the same table exactly if they are aliases. */
  lemma RunTablesApart(trace: seq<VmState>, calls: seq<Call>, results: seq<int>, n: nat, i: nat, j: nat)
    requires VmRun(trace, calls, results) && n < |trace| && i < ENTRIES && j < ENTRIES
    ensures Shaped(trace[n])
    ensures Present(Pde(trace[n], i)) && Present(Pde(trace[n], j)) ==>
            (Frame(Pde(trace[n], i)) == Frame(Pde(trace[n], j)) <==> Canon(i) == Canon(j))
  {
    RunIsConsistent(trace, calls, results, n);
    assert EntriesApart(trace[n], i, j);
  }

  /** In every run the tables created on demand are allocated frames, one for each present
      directory entry outside the boot mapping, and at most 1016. */
  lemma RunTableBound(trace: seq<VmState>, calls: seq<Call>, results: seq<int>, i: nat)
    requires VmRun(trace, calls, results) && i < |trace|
    ensures Shaped(trace[i])
    ensures DynamicTables(trace[i], ENTRIES) <= trace[i].frames.used
    ensures |DynamicTables(trace[i], ENTRIES)| == |DynamicEntries(trace[i], ENTRIES)| <= 1016
  {
    RunIsConsistent(trace, calls, results, i);
    DynamicEntriesBelow(trace[i], ENTRIES);
    OneTableEach(trace[i], ENTRIES);
    forall j | j in DynamicEntries(trace[i], ENTRIES) ensures Frame(Pde(trace[i], j)) in trace[i].frames.used {
      assert EntryReserved(trace[i], j);
    }
  }

  // ---------------------------------------------------------------- entries as numbers

  /** The 32-bit address splits into 10 bits of directory index, 10 of table index, 12 of offset. */
  lemma AddressParts(v: u32)
    ensures v == Directory(v) * 0x40_0000 + Table(v) * 0x1000 + v % 0x1000
    ensures Directory(v) < 1024 && Table(v) < 1024
  {
  }

  /** Two addresses are on the same page, counting the 16 MB from 3 GB on as the first 16 MB. */
  lemma SamePageExact(v: u32, w: u32)
    ensures SamePage(v, w) <==> Unaliased(v) / 0x1000 == Unaliased(w) / 0x1000
  {
    AddressParts(v);
    AddressParts(w);
    UnaliasedPage(v);
    UnaliasedPage(w);
  }

  function Unaliased(v: u32): u32 {
    if 0xC000_0000 <= v < 0xC100_0000 then v - 0xC000_0000 else v
  }

  lemma UnaliasedPage(v: u32)
    ensures Unaliased(v) / 0x1000 == Canon(Directory(v)) * 1024 + Table(v)
  {
  }

  /** An entry for a page-aligned address: the low twelve bits are those of the flags, and flags
      below 0x1000 are simply added. */
  lemma EntryValue(phys: u32, flags: u32)
    requires phys % 0x1000 == 0
    ensures Or32(phys, flags) % 0x1000 == flags % 0x1000
    ensures flags < 0x1000 ==> Or32(phys, flags) == phys + flags
  {
    BitOrPage(phys / 0x1000, flags);
    assert phys == phys / 0x1000 * 0x1000;
    if flags < 0x1000 {
      assert BitOr(phys / 0x1000, 0) == phys / 0x1000;
      assert Or32(phys, flags) / 0x1000 == phys / 0x1000;
    }
  }

  /** The words that vmm_init writes: present, writable, and for the kernel only.  Table word `k`
      maps frame `k`; directory entries 0 to 3 and 768 to 771 map the four tables, all others
      nothing. */
  lemma BootWords(s: VmState, k: nat, i: nat)
    requires Booted(s) && k < 4096 && i < 1024
    ensures s.words[s.tables * 1024 + k] == 4096 * k + 3
    ensures s.words[s.directory * 1024 + i] ==
            if i < 4 then 4096 * (s.tables + i) + 3
            else if 768 <= i < 772 then 4096 * (s.tables + i - 768) + 3
            else 0
  {
    assert s.words[s.tables * ENTRIES + k] == IdentityEntry(k);
    EntryValue(k * PAGE_SIZE, PRESENT_WRITE);
    assert Pde(s, i) == BootEntry(s.tables, i);
    if i < 4 { EntryValue((s.tables + i) * PAGE_SIZE, PRESENT_WRITE); }
    if 768 <= i < 772 { EntryValue((s.tables + i - 768) * PAGE_SIZE, PRESENT_WRITE); }
  }

  /** The entry that a successful vmm_map leaves for its page, present or not, and the directory
      entry, which for a new table is the table's address plus 3. */
  lemma MapWrites(s: VmState, v: u32, phys: u32, flags: u32)
    requires DirectoryOk(s) && Map(s, v, phys, flags).1 == 0
    ensures
      var (s', e) := (Map(s, v, phys, flags).0, Pde(s, Directory(v)));
      && DirectoryOk(s')
      && Pde(s', Directory(v)) == (if e % 2 == 1 then e else Alloc(s.frames).1 + 3)
      && Inside(s', Pde(s', Directory(v)) / 4096)
      && Word(s', Pde(s', Directory(v)) / 4096, Table(v)) == BitOr(phys, flags)
      && (flags < 4096 ==> BitOr(phys, flags) == phys + flags)
  {
    var i := Directory(v);
    MapFailsExactly(s, v, phys, flags);
    MapIsSetEntry(s, v, phys, flags);
    EntryValue(phys, flags);
    var t := if Present(Pde(s, i)) then s else AddTable(s, i);
    if !Present(Pde(s, i)) {
      AddTableEffect(s, i, v);
      AddTableEntries(s, i, i);
      AllocExact(s.frames);
      EntryValue(Alloc(s.frames).1, PRESENT_WRITE);
      WordAfterWrite(s.(frames := Alloc(s.frames).0), s.directory, i, Or32(Alloc(s.frames).1, PRESENT_WRITE), s.directory, i);
    }
    SetEntryKeepsDirectory(t, i, Table(v), Or32(phys, flags));
    assert SamePde(t, Map(s, v, phys, flags).0, i) && EntryBacked(t, i);
    WordAfterWrite(t, Frame(Pde(t, i)), Table(v), Or32(phys, flags), Frame(Pde(t, i)), Table(v));
  }

  /** A successful vmm_unmap leaves the word 0 and changes no other word. */
  lemma UnmapWrites(s: VmState, v: u32)
    requires Backed(s) && Unmap(s, v).1 == 0
    ensures Inside(s, Pde(s, Directory(v)) / 4096)
    ensures Unmap(s, v).0 == s.(words := s.words[Pde(s, Directory(v)) / 4096 * 1024 + Table(v) := 0])
  {
    assert EntryBacked(s, Directory(v));
  }
}
