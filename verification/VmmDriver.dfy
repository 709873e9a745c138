/** The paging code: vmm_init, vmm_map, vmm_unmap and vmm_get_phys on the words of memory. */
module VmmDriver {
  import opened Words
  import opened Pmm
  import opened Vmm
  import opened VmmRuns

  /** Only the directory and the four static tables differ. */
  predicate OutsideKernel(w: seq<u32>, w0: seq<u32>, directory: nat, tables: nat) {
    && |w| == |w0|
    && forall k :: 0 <= k < |w| && k / ENTRIES != directory && !(tables <= k / ENTRIES < tables + 4) ==> w[k] == w0[k]
  }

  /** The first `n` entries of the static tables, and of the directory, are those of vmm_init. */
  predicate TablesFilled(w: seq<u32>, tables: nat, n: nat) {
    && n <= 4 * ENTRIES && (tables + 4) * ENTRIES <= |w|
    && forall j :: tables * ENTRIES <= j < tables * ENTRIES + n ==> w[j] == IdentityEntry(j - tables * ENTRIES)
  }

  predicate DirectoryFilled(w: seq<u32>, directory: nat, tables: nat, n: nat) {
    && n <= ENTRIES && (directory + 1) * ENTRIES <= |w| && (tables + 4) * PAGE_SIZE <= U32_LIMIT
    && forall j :: directory * ENTRIES <= j < directory * ENTRIES + n ==> w[j] == BootEntry(tables, j - directory * ENTRIES)
  }

  lemma FilledIsBooted(s: VmState)
    requires Shaped(s) && TablesFilled(s.words, s.tables, 4 * ENTRIES)
    requires DirectoryFilled(s.words, s.directory, s.tables, ENTRIES)
    ensures Booted(s)
  {
    forall i | 0 <= i < ENTRIES ensures Pde(s, i) == BootEntry(s.tables, i) {
      assert s.words[s.directory * ENTRIES + i] == BootEntry(s.tables, i);
    }
    forall k | 0 <= k < 4 * ENTRIES ensures s.words[s.tables * ENTRIES + k] == IdentityEntry(k) {
      assert s.words[s.tables * ENTRIES + k] == IdentityEntry(s.tables * ENTRIES + k - s.tables * ENTRIES);
    }
  }

  /** vmm_map keeps the directory well formed, whatever free frames contain. */
  lemma MapKeepsDirectory(s: VmState, virt: u32, phys: u32, flags: u32)
    requires DirectoryOk(s)
    ensures DirectoryOk(Map(s, virt, phys, flags).0)
  {
    var i := Directory(virt);
    if Aligned(virt, phys) {
      MapIsSetEntry(s, virt, phys, flags);
      if Present(Pde(s, i)) {
        SetEntryKeepsDirectory(s, i, Table(virt), Or32(phys, flags));
      } else if CanAddTable(s.frames) {
        SetEntryKeepsDirectory(AddTable(s, i), i, Table(virt), Or32(phys, flags));
      } else {
        TakeFrame(s, virt);
      }
    }
  }

  lemma UnmapKeepsDirectory(s: VmState, virt: u32)
    requires DirectoryOk(s)
    ensures DirectoryOk(Unmap(s, virt).0)
  {
    if Mapping(s, virt).Some? { SetEntryKeepsDirectory(s, Directory(virt), Table(virt), 0); }
  }

  class PageTables {
    const words: array<u32>
    const directory: nat
    const tables: nat
    const pmm: FrameAllocator

    /** Every present directory entry leads to memory. */
    ghost predicate Linked()
      reads words, pmm, pmm.bitmap
    {
      pmm.bitmap as object != words && pmm.Valid() && Backed(State())
    }

    /** The directory is also well formed: see BootDirectoryOk for when vmm_init makes it so. */
    ghost predicate Valid()
      reads words, pmm, pmm.bitmap
    {
      Linked() && DirectoryOk(State())
    }

    ghost function State(): VmState
      requires pmm.Shaped()
      reads words, pmm, pmm.bitmap
    {
      VmState(directory, tables, words[..], pmm.State())
    }

    /** vmm_init.  The kernel's loop over the first static table runs on into the other three,
        which follow it in memory. */
    constructor (words: array<u32>, directory: nat, tables: nat, pmm: FrameAllocator)
      requires pmm.bitmap as object != words && pmm.Valid()
      requires Shaped(VmState(directory, tables, words[..], pmm.State()))
      modifies words
      ensures this.words == words && this.pmm == pmm && this.directory == directory && this.tables == tables
      ensures Linked() && Booted(State()) && (Valid() <==> KernelReserved(State()))
      ensures pmm.State() == old(pmm.State()) && OutsideKernel(words[..], old(words[..]), directory, tables)
    {
      this.words, this.directory, this.tables, this.pmm := words, directory, tables, pmm;
      new;
      ClearTables();
      FillTables();
      FillDirectory();
      assert pmm.State() == old(pmm.State());
      FilledIsBooted(State());
      BootedIsBacked(State());
      BootDirectoryOk(State());
    }

    ghost predicate Placed()
      reads words
    {
      && 0 < directory && (directory + 1) * ENTRIES <= words.Length
      && 0 < tables && (tables + 4) * ENTRIES <= words.Length <= U32_LIMIT / 4
      && !(tables <= directory < tables + 4)
    }

    method ClearTables()
      requires Placed()
      modifies words
      ensures forall j :: directory * ENTRIES <= j < (directory + 1) * ENTRIES ==> words[j] == 0
      ensures OutsideKernel(words[..], old(words[..]), directory, tables)
    {
      for i := 0 to ENTRIES
        invariant forall j :: directory * ENTRIES <= j < directory * ENTRIES + i ==> words[j] == 0
        invariant OutsideKernel(words[..], old(words[..]), directory, tables)
      {
        words[directory * ENTRIES + i] := 0;
      }
      for i := 0 to 4
        invariant forall j :: directory * ENTRIES <= j < (directory + 1) * ENTRIES ==> words[j] == 0
        invariant OutsideKernel(words[..], old(words[..]), directory, tables)
      {
        for k := 0 to ENTRIES
          invariant forall j :: directory * ENTRIES <= j < (directory + 1) * ENTRIES ==> words[j] == 0
          invariant OutsideKernel(words[..], old(words[..]), directory, tables)
        {
          words[(tables + i) * ENTRIES + k] := 0;
        }
      }
    }

    /** The kernel's index runs through all four tables, which are contiguous. */
    method FillTables()
      requires Placed() && forall j :: directory * ENTRIES <= j < (directory + 1) * ENTRIES ==> words[j] == 0
      modifies words
      ensures forall j :: directory * ENTRIES <= j < (directory + 1) * ENTRIES ==> words[j] == 0
      ensures OutsideKernel(words[..], old(words[..]), directory, tables) && TablesFilled(words[..], tables, 4 * ENTRIES)
    {
      for i := 0 to 4 * ENTRIES
        invariant forall j :: directory * ENTRIES <= j < (directory + 1) * ENTRIES ==> words[j] == 0
        invariant OutsideKernel(words[..], old(words[..]), directory, tables) && TablesFilled(words[..], tables, i)
      {
        words[tables * ENTRIES + i] := Or32(i * PAGE_SIZE, PRESENT_WRITE);
      }
    }

    method SetDirectory(i: nat, table: nat)
      requires Placed() && i < ENTRIES && table < 4 && TablesFilled(words[..], tables, 4 * ENTRIES)
      modifies words
      ensures words[..] == old(words[..])[directory * ENTRIES + i := Or32((tables + table) * PAGE_SIZE, PRESENT_WRITE)]
      ensures TablesFilled(words[..], tables, 4 * ENTRIES)
    {
      words[directory * ENTRIES + i] := Or32((tables + table) * PAGE_SIZE, PRESENT_WRITE);
    }

    method FillLow()
      requires Placed() && forall j :: directory * ENTRIES <= j < (directory + 1) * ENTRIES ==> words[j] == 0
      requires TablesFilled(words[..], tables, 4 * ENTRIES)
      modifies words
      ensures TablesFilled(words[..], tables, 4 * ENTRIES) && DirectoryFilled(words[..], directory, tables, HIGH_INDEX)
      ensures forall j :: directory * ENTRIES + HIGH_INDEX <= j < (directory + 1) * ENTRIES ==> words[j] == 0
      ensures OutsideKernel(words[..], old(words[..]), directory, tables)
    {
      SetDirectory(0, 0);
      SetDirectory(1, 1);
      SetDirectory(2, 2);
      SetDirectory(3, 3);
    }

    method FillDirectory()
      requires Placed() && forall j :: directory * ENTRIES <= j < (directory + 1) * ENTRIES ==> words[j] == 0
      requires TablesFilled(words[..], tables, 4 * ENTRIES)
      modifies words
      ensures TablesFilled(words[..], tables, 4 * ENTRIES) && DirectoryFilled(words[..], directory, tables, ENTRIES)
      ensures OutsideKernel(words[..], old(words[..]), directory, tables)
    {
      FillLow();
      for i := 0 to 4
        invariant DirectoryFilled(words[..], directory, tables, HIGH_INDEX + i)
        invariant forall j :: directory * ENTRIES + HIGH_INDEX + i <= j < (directory + 1) * ENTRIES ==> words[j] == 0
        invariant TablesFilled(words[..], tables, 4 * ENTRIES)
        invariant OutsideKernel(words[..], old(words[..]), directory, tables)
      {
        SetDirectory(HIGH_INDEX + i, i);
      }
    }

    /** Store entry `k` of the table at physical address `base`. */
    method Store(base: u32, k: nat, e: u32)
      requires pmm.bitmap as object != words && pmm.Valid()
      requires base % PAGE_SIZE == 0 && Inside(State(), Frame(base)) && k < ENTRIES
      modifies words
      ensures pmm.Valid() && State() == Write(old(State()), Frame(base), k, e)
    {
      assert base / 4 == Frame(base) * ENTRIES;
      words[base / 4 + k] := e;
    }

    /** The part of vmm_map that creates a table for directory entry `i`. */
    method CreateTable(i: nat) returns (newTable: u32)
      requires Linked() && i < ENTRIES
      modifies words, pmm`allocatedPages, pmm.bitmap
      ensures pmm.Valid() && newTable == Alloc(old(State()).frames).1
      ensures State() == if newTable == 0 then old(State()).(frames := Alloc(old(State()).frames).0)
                         else AddTable(old(State()), i)
    {
      ghost var s0 := State();
      newTable := pmm.Allocate();
      TableInside(s0.frames);
      assert State() == s0.(frames := Alloc(s0.frames).0);
      if newTable != 0 {
        assert Frame(directory * PAGE_SIZE) == directory;
        Store(directory * PAGE_SIZE, i, Or32(newTable, PRESENT_WRITE));
      }
    }

    /** vmm_map.  The page's entry may be written into the directory itself if the directory's
        frame was handed out; a valid directory excludes that, and stays valid. */
    method MapPage(virt: u32, phys: u32, flags: u32) returns (status: int)
      requires Linked()
      modifies words, pmm`allocatedPages, pmm.bitmap
      ensures pmm.Valid() && (State(), status) == Map(old(State()), virt, phys, flags)
      ensures old(Valid()) ==> Valid()
    {
      ghost var s0 := State();
      if DirectoryOk(s0) { MapKeepsDirectory(s0, virt, phys, flags); }
      assert EntryBacked(s0, Directory(virt));
      if virt % PAGE_SIZE != 0 || phys % PAGE_SIZE != 0 {
        return -1;
      }
      var entry := words[directory * ENTRIES + Directory(virt)];
      var base;
      if !Present(entry) {
        base := CreateTable(Directory(virt));
        TableInside(s0.frames);
        if base == 0 {
          return -1;
        }
      } else {
        base := entry - entry % PAGE_SIZE;
        assert Frame(base) == Frame(entry);
      }
      Store(base, Table(virt), Or32(phys, flags));
      return 0;
    }

    method UnmapPage(virt: u32) returns (status: int)
      requires Linked()
      modifies words
      ensures pmm.Valid() && (State(), status) == Unmap(old(State()), virt)
      ensures old(Valid()) ==> Valid()
    {
      ghost var s0 := State();
      if DirectoryOk(s0) { UnmapKeepsDirectory(s0, virt); }
      assert EntryBacked(s0, Directory(virt));
      var entry := words[directory * ENTRIES + Directory(virt)];
      if !Present(entry) {
        return -1;
      }
      var base := entry - entry % PAGE_SIZE;
      assert Frame(base) == Frame(entry) && base / 4 == Frame(base) * ENTRIES;
      if !Present(words[base / 4 + Table(virt)]) {
        return -1;
      }
      Store(base, Table(virt), 0);
      return 0;
    }

    method Translate(virt: u32) returns (phys: u32)
      requires Linked()
      ensures phys == GetPhys(State(), virt)
    {
      assert EntryBacked(State(), Directory(virt));
      var entry := words[directory * ENTRIES + Directory(virt)];
      if !Present(entry) {
        return 0;
      }
      var base := entry - entry % PAGE_SIZE;
      assert base / 4 == Frame(entry) * ENTRIES;
      var pte := words[base / 4 + Table(virt)];
      if !Present(pte) {
        return 0;
      }
      return pte - pte % PAGE_SIZE;
    }
  }
}
