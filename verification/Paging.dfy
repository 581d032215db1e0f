/**
  Page tables (`arch/paging.rs`): walks, mapping and unmapping over a memory of tables.

  Functions at the top say what each operation does to a memory value, branch by branch.
  `PagingProofs.dfy` proves that this memory is always a tree that refines a flat map from
  addresses to pages; `PagingMachine.dfy` has the loops of the source over a mutable memory.
  */
module Paging {
  import opened Wrappers
  import opened Addr

  type PageFlags = bv64

  const PRESENT: PageFlags := 0x1
  const WRITABLE: PageFlags := 0x2
  const USER: PageFlags := 0x4
  const HUGE: PageFlags := 0x80
  const NO_EXECUTE: PageFlags := 0x8000_0000_0000_0000

  /** Every flag `PageFlags` names: bits 0 to 11 and bit 63. */
  const KNOWN_FLAGS: PageFlags := 0x8000_0000_0000_0FFF

  /** Bits 51 to 12 of an entry hold the frame. */
  const ADDR_MASK: bv64 := 0x000F_FFFF_FFFF_F000

  predicate Contains(flags: PageFlags, flag: PageFlags) {
    flags & flag == flag
  }

  datatype PageError =
    | WriteExecute
    | UserMappingInKernelHalf
    | AlreadyMapped
    | NotMapped
    | OutOfFrames
    | InvalidHugePage(level: nat)
    | Misaligned

  datatype PageSize = Small | Large | Huge {
    /** The level whose entries map pages of this size. */
    function TerminalLevel(): (level: nat)
      ensures 1 <= level <= 3
    {
      match this
      case Small => 1
      case Large => 2
      case Huge => 3
    }

    function Bytes(): nat {
      EntrySpan(TerminalLevel())
    }
  }

  function SizeOfLevel(level: nat): PageSize
    requires 1 <= level <= 3
  {
    if level == 1 then Small else if level == 2 then Large else Huge
  }

  /** `PageFlags::validate`. */
  function Validate(flags: PageFlags, virt: VirtAddr, mode: PagingMode): Result<(), PageError> {
    if Contains(flags, WRITABLE) && !Contains(flags, NO_EXECUTE) then Err(WriteExecute)
    else if Contains(flags, USER) && IsKernelHalf(virt, mode) then Err(UserMappingInKernelHalf)
    else Ok(())
  }

  /** `PageFlags::intermediate`: what an entry that links a table carries. */
  function Intermediate(user: bool): PageFlags {
    if user then PRESENT | WRITABLE | USER else PRESENT | WRITABLE
  }

  /**
    A table entry. The source packs the two parts into one word; `EntryWordRoundTrips` shows
    that the packing loses nothing.
    */
  datatype Entry = Entry(frame: PhysAddr, flags: PageFlags) {
    predicate IsPresent() {
      Contains(flags, PRESENT)
    }

    /** `Entry::is_leaf`: does the entry end the walk at this level? */
    function IsLeaf(level: nat): Result<bool, PageError> {
      if !IsPresent() then Ok(false)
      else if level == 1 then Ok(true)
      else if level == 2 || level == 3 then Ok(Contains(flags, HUGE))
      else if level == 4 || level == 5 then
        if Contains(flags, HUGE) then Err(InvalidHugePage(level)) else Ok(false)
      else Err(InvalidHugePage(level))
    }
  }

  const EMPTY := Entry(0, 0)

  function NewEntry(frame: PhysAddr, flags: PageFlags): Result<Entry, PageError> {
    if frame % 0x1000 != 0 then Err(Misaligned) else Ok(Entry(frame, flags))
  }

  /** The word `Entry::new` builds gives back its frame and its flags. */
  lemma EntryWordRoundTrips(frame: bv64, flags: PageFlags)
    requires frame & !ADDR_MASK == 0
    requires flags & !KNOWN_FLAGS == 0
    ensures (frame | flags) & ADDR_MASK == frame
    ensures (frame | flags) & KNOWN_FLAGS == flags
  {
  }

  // ----- memory --------------------------------------------------------------------------

  /** 512 entries; an index that is not a key holds `EMPTY`. */
  type PageTable = map<nat, Entry>

  /**
    Where a table hangs: the indices that lead to it from the root, and the cell above it
    (the table `parent`, at index `slot`) that links it.
    */
  datatype Place = Place(prefix: seq<nat>, parent: PhysAddr, slot: nat)

  /**
    All page tables of one address space, the frames left for new tables, and (for the
    proofs only; no operation reads it) the place of every table.
    */
  datatype Memory = Memory(tables: map<PhysAddr, PageTable>, pool: seq<PhysAddr>, place: map<PhysAddr, Place>)

  /** `TableAccess::read_entry`. */
  function ReadEntry(tables: map<PhysAddr, PageTable>, table: PhysAddr, index: nat): Option<Entry> {
    if table in tables && index < 512 then
      Some(if index in tables[table] then tables[table][index] else EMPTY)
    else None
  }

  function SetCell(tables: map<PhysAddr, PageTable>, table: PhysAddr, index: nat, entry: Entry)
    : map<PhysAddr, PageTable>
    requires table in tables
  {
    var cells: PageTable := tables[table][index := entry];
    tables[table := cells]
  }

  /** `TableAccess::write_entry`. */
  function WriteEntry(m: Memory, table: PhysAddr, index: nat, entry: Entry): Result<Memory, PageError> {
    if table in m.tables && index < 512 then
      Ok(m.(tables := SetCell(m.tables, table, index, entry)))
    else Err(NotMapped)
  }

  /** Where a walk ended: the cell it read last and the level it was at. */
  datatype Leaf = Leaf(table: PhysAddr, index: nat, entry: Entry, level: nat)

  /** The walk that `translate` and `unmap_page` share, with `level` indices of `path` to go. */
  function Walk(tables: map<PhysAddr, PageTable>, table: PhysAddr, path: seq<nat>, level: nat)
    : (r: Result<Leaf, PageError>)
    requires level <= |path|
    ensures r.Ok? ==> 1 <= r.value.level <= 3
    decreases level
  {
    if level == 0 then Err(NotMapped)
    else
      var index := path[|path| - level];
      match ReadEntry(tables, table, index)
      case None => Err(NotMapped)
      case Some(entry) =>
        if !entry.IsPresent() then Err(NotMapped)
        else
          match entry.IsLeaf(level)
          case Err(e) => Err(e)
          case Ok(true) => Ok(Leaf(table, index, entry, level))
          case Ok(false) => Walk(tables, entry.frame, path, level - 1)
  }

  datatype Translation = Translation(frame: PhysAddr, flags: PageFlags, size: PageSize, phys: PhysAddr)

  /** What `translate` answers for a byte of a page mapped by `entry` at `level`. */
  function PageByte(frame: PhysAddr, flags: PageFlags, size: PageSize, virt: VirtAddr): Result<Translation, PageError> {
    var phys := frame + virt % size.Bytes();
    if phys >= TWO_52 then Err(Misaligned) else Ok(Translation(frame, flags, size, phys))
  }

  /** `translate`. */
  function Translate(m: Memory, root: PhysAddr, virt: VirtAddr, mode: PagingMode): Result<Translation, PageError> {
    match Walk(m.tables, root, Path(virt, mode), mode.Levels())
    case Err(e) => Err(e)
    case Ok(leaf) => PageByte(leaf.entry.frame, leaf.entry.flags, SizeOfLevel(leaf.level), virt)
  }

  /** Take a frame from the pool and link it, zeroed, under (`table`, `index`). */
  function LinkNewTable(m: Memory, table: PhysAddr, index: nat, user: bool): (Memory, Result<PhysAddr, PageError>) {
    if m.pool == [] then (m, Err(OutOfFrames))
    else
      var child := m.pool[0];
      var prefix := if table in m.place then m.place[table].prefix else [];
      var m1 := Memory(m.tables[child := map[]], m.pool[1..], m.place[child := Place(prefix + [index], table, index)]);
      match NewEntry(child, Intermediate(user))
      case Err(e) => (m1, Err(e))
      case Ok(entry) =>
        match WriteEntry(m1, table, index, entry)
        case Err(e) => (m1, Err(e))
        case Ok(m2) => (m2, Ok(child))
  }

  /** The descent of `map_page`, with `level` levels to go; `entry` goes in at `terminal`. */
  function MapFrom(m: Memory, table: PhysAddr, path: seq<nat>, level: nat, terminal: nat, user: bool,
                   entry: Result<Entry, PageError>)
    : (Memory, Result<(), PageError>)
    requires 1 <= terminal <= level <= |path|
    decreases level
  {
    var index := path[|path| - level];
    var read := ReadEntry(m.tables, table, index);
    if level == terminal then
      if read.Some? && read.value.IsPresent() then (m, Err(AlreadyMapped))
      else
        match entry
        case Err(e) => (m, Err(e))
        case Ok(leaf) =>
          match WriteEntry(m, table, index, leaf)
          case Err(e) => (m, Err(e))
          case Ok(m') => (m', Ok(()))
    else if read.None? then (m, Err(NotMapped))
    else if read.value.IsPresent() then
      match read.value.IsLeaf(level)
      case Err(e) => (m, Err(e))
      case Ok(true) => (m, Err(AlreadyMapped))
      case Ok(false) => MapFrom(m, read.value.frame, path, level - 1, terminal, user, entry)
    else
      var (linked, child) := LinkNewTable(m, table, index, user);
      match child
      case Err(e) => (linked, Err(e))
      case Ok(next) => MapFrom(linked, next, path, level - 1, terminal, user, entry)
  }

  /** The flags a leaf ends up with. */
  function LeafFlags(flags: PageFlags, size: PageSize): PageFlags {
    if size.TerminalLevel() > 1 then flags | PRESENT | HUGE else flags | PRESENT
  }

  /** `map_page`. */
  function MapPage(m: Memory, root: PhysAddr, virt: VirtAddr, frame: PhysAddr, flags: PageFlags, size: PageSize,
                   mode: PagingMode)
    : (Memory, Result<(), PageError>)
  {
    match Validate(flags, virt, mode)
    case Err(e) => (m, Err(e))
    case Ok(_) =>
      if virt % size.Bytes() != 0 || frame % size.Bytes() != 0 then (m, Err(Misaligned))
      else
        MapFrom(m, root, Path(virt, mode), mode.Levels(), size.TerminalLevel(), Contains(flags, USER),
                NewEntry(frame, LeafFlags(flags, size)))
  }

  /** `unmap_page`. */
  function UnmapPage(m: Memory, root: PhysAddr, virt: VirtAddr, mode: PagingMode)
    : (Memory, Result<(PhysAddr, PageSize), PageError>)
  {
    match Walk(m.tables, root, Path(virt, mode), mode.Levels())
    case Err(e) => (m, Err(e))
    case Ok(leaf) =>
      match WriteEntry(m, leaf.table, leaf.index, EMPTY)
      case Err(e) => (m, Err(e))
      case Ok(m') => (m', Ok((leaf.entry.frame, SizeOfLevel(leaf.level))))
  }

  /** Flags that the words have room for stay such: what is written to a table can be read back. */
  lemma KnownFlagsStayKnown(flags: PageFlags, size: PageSize, user: bool)
    requires flags & !KNOWN_FLAGS == 0
    ensures LeafFlags(flags, size) & !KNOWN_FLAGS == 0 && Intermediate(user) & !KNOWN_FLAGS == 0
  {
    assert (flags | PRESENT) & !KNOWN_FLAGS == 0;
    assert (flags | PRESENT | HUGE) & !KNOWN_FLAGS == 0;
  }
}
