/** Two-level 32-bit paging.  Four static tables map the first 16 MB and are shared by two
    ranges of the directory; further tables are created on demand from the frame allocator.
    Physical memory is an array of words, 1024 to a frame, and a table is reached through its
    physical address. */
module Vmm {
  import opened Words
  import opened Pmm

  const ENTRIES := 1024
  const TABLE_SPAN := 0x400000
  const HIGH_INDEX := 768
  const PRESENT_WRITE: u32 := 3

  /** `directory` is the frame of the page directory, `tables` the first of the four frames of the
      static page tables, `words` physical memory. */
  datatype VmState = VmState(directory: nat, tables: nat, words: seq<u32>, frames: Frames)

  predicate Shaped(s: VmState) {
    && |s.words| % ENTRIES == 0
    && s.frames.total * ENTRIES <= |s.words| <= U32_LIMIT / 4
    && 0 < s.directory && (s.directory + 1) * ENTRIES <= |s.words|
    && 0 < s.tables && (s.tables + 4) * ENTRIES <= |s.words|
    && !(s.tables <= s.directory < s.tables + 4)
  }

  predicate Present(e: u32) {
    e % 2 == 1
  }

  function Directory(virt: u32): (i: nat)
    ensures i < ENTRIES
  {
    virt / TABLE_SPAN
  }

  function Table(virt: u32): (i: nat)
    ensures i < ENTRIES
  {
    virt / PAGE_SIZE % ENTRIES
  }

  /** The frame that an entry points to. */
  function Frame(e: u32): nat {
    e / PAGE_SIZE
  }

  /** Frame `f` lies in physical memory. */
  predicate Inside(s: VmState, f: nat) {
    (f + 1) * ENTRIES <= |s.words|
  }

  /** Word `k` of frame `f`. */
  function Word(s: VmState, f: nat, k: nat): u32
    requires Inside(s, f) && k < ENTRIES
  {
    s.words[f * ENTRIES + k]
  }

  function Write(s: VmState, f: nat, k: nat, e: u32): VmState
    requires Inside(s, f) && k < ENTRIES
  {
    s.(words := s.words[f * ENTRIES + k := e])
  }

  lemma WordAfterWrite(s: VmState, f: nat, k: nat, e: u32, g: nat, n: nat)
    requires Inside(s, f) && Inside(s, g) && k < ENTRIES && n < ENTRIES
    ensures Word(Write(s, f, k, e), g, n) == if g == f && n == k then e else Word(s, g, n)
  {
  }

  /** Directory entry `i`. */
  function Pde(s: VmState, i: nat): u32
    requires Shaped(s) && i < ENTRIES
  {
    Word(s, s.directory, i)
  }

  /** Every present directory entry points to a frame of physical memory. */
  predicate Backed(s: VmState) {
    Shaped(s) && forall i :: 0 <= i < ENTRIES ==> EntryBacked(s, i)
  }

  predicate EntryBacked(s: VmState, i: nat)
    requires Shaped(s) && i < ENTRIES
  {
    Present(Pde(s, i)) ==> Inside(s, Frame(Pde(s, i)))
  }

  // ---------------------------------------------------------------- the operations

  /** vmm_map */
  function Map(s: VmState, virt: u32, phys: u32, flags: u32): (VmState, int)
    requires Backed(s)
  {
    var e := Pde(s, Directory(virt));
    assert EntryBacked(s, Directory(virt));
    if virt % PAGE_SIZE != 0 || phys % PAGE_SIZE != 0 then (s, -1)
    else if Present(e) then (Write(s, Frame(e), Table(virt), Or32(phys, flags)), 0)
    else
      var (f, table) := Alloc(s.frames);
      if table == 0 then (s.(frames := f), -1)
      else
        TableInside(s.frames);
        var linked := Write(s.(frames := f), s.directory, Directory(virt), Or32(table, PRESENT_WRITE));
        (Write(linked, Frame(table), Table(virt), Or32(phys, flags)), 0)
  }

  /** The entry that translates `virt`, if there is one. */
  function Mapping(s: VmState, virt: u32): Option<u32>
    requires Backed(s)
  {
    var e := Pde(s, Directory(virt));
    assert EntryBacked(s, Directory(virt));
    if !Present(e) then None
    else
      var pte := Word(s, Frame(e), Table(virt));
      if Present(pte) then Some(pte) else None
  }

  /** vmm_unmap */
  function Unmap(s: VmState, virt: u32): (VmState, int)
    requires Backed(s)
  {
    assert EntryBacked(s, Directory(virt));
    if Mapping(s, virt).None? then (s, -1)
    else (Write(s, Frame(Pde(s, Directory(virt))), Table(virt), 0), 0)
  }

  /** vmm_get_phys */
  function GetPhys(s: VmState, virt: u32): u32
    requires Backed(s)
  {
    match Mapping(s, virt)
    case None => 0
    case Some(pte) => pte - pte % PAGE_SIZE
  }

  /** The frame that pmm_alloc hands out lies in the memory it manages. */
  lemma TableInside(f: Frames)
    ensures var (f', addr) := Alloc(f);
      addr % PAGE_SIZE == 0 && (addr != 0 ==> addr / PAGE_SIZE < f.total) && f'.total == f.total
  {
  }

  // ---------------------------------------------------------------- the boot mapping

  function IdentityEntry(k: nat): u32
    requires k < 4 * ENTRIES
  {
    Or32(k * PAGE_SIZE, PRESENT_WRITE)
  }

  /** Directory entry `i`: the four tables appear at 0..3 and again at 768..771. */
  function BootEntry(tables: nat, i: nat): u32
    requires (tables + 4) * PAGE_SIZE <= U32_LIMIT
  {
    if i < 4 then Or32((tables + i) * PAGE_SIZE, PRESENT_WRITE)
    else if HIGH_INDEX <= i < HIGH_INDEX + 4 then Or32((tables + i - HIGH_INDEX) * PAGE_SIZE, PRESENT_WRITE)
    else 0
  }

  /** The directory and the static tables as vmm_init leaves them. */
  predicate Booted(s: VmState) {
    && Shaped(s)
    && (forall i :: 0 <= i < ENTRIES ==> Pde(s, i) == BootEntry(s.tables, i))
    && (forall k :: 0 <= k < 4 * ENTRIES ==> s.words[s.tables * ENTRIES + k] == IdentityEntry(k))
  }

  /** The entry for a page-aligned table address: its frame and the two flag bits. */
  lemma TableEntry(table: u32)
    requires table % PAGE_SIZE == 0
    ensures var e := Or32(table, PRESENT_WRITE); Present(e) && Frame(e) == Frame(table) && e % PAGE_SIZE == 3
  {
    BitOrPage(table / PAGE_SIZE, PRESENT_WRITE);
  }

  lemma BootedIsBacked(s: VmState)
    requires Booted(s)
    ensures Backed(s)
  {
    forall i | 0 <= i < ENTRIES
      ensures EntryBacked(s, i)
    {
      if i < 4 { TableEntry((s.tables + i) * PAGE_SIZE); }
      if HIGH_INDEX <= i < HIGH_INDEX + 4 { TableEntry((s.tables + i - HIGH_INDEX) * PAGE_SIZE); }
    }
  }
}
