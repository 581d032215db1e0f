/**
  `translate`, `map_page` and `unmap_page` as the source runs them: loops that update one
  table pointer and write entries of a shared memory in place.
  */
module PagingMachine {
  import opened Wrappers
  import opened Addr
  import P = Paging

  /** The kernel's `TableAccess`: the tables in memory and the frames left for new ones. */
  class TableAccess {
    var tables: map<PhysAddr, P.PageTable>
    var pool: seq<PhysAddr>
    ghost var place: map<PhysAddr, P.Place>

    ghost function View(): P.Memory
      reads this
    {
      P.Memory(tables, pool, place)
    }

    constructor (root: PhysAddr, frames: seq<PhysAddr>)
      ensures tables == map[root := map[]] && pool == frames
      ensures place == map[root := P.Place([], root, 0)]
    {
      tables := map[root := map[]];
      pool := frames;
      place := map[root := P.Place([], root, 0)];
    }

    method ReadEntry(table: PhysAddr, index: nat) returns (r: Option<P.Entry>)
      ensures r == P.ReadEntry(tables, table, index)
    {
      r := P.ReadEntry(tables, table, index);
    }

    method WriteEntry(table: PhysAddr, index: nat, entry: P.Entry) returns (r: Result<(), P.PageError>)
      modifies this
      ensures match P.WriteEntry(old(View()), table, index, entry)
              case Ok(m) => r == Ok(()) && View() == m
              case Err(e) => r == Err(e) && View() == old(View())
    {
      if table in tables && index < 512 {
        tables := P.SetCell(tables, table, index, entry);
        r := Ok(());
      } else {
        r := Err(P.NotMapped);
      }
    }

    /** Hand out the next free frame as a zeroed table; the caller is about to link it under (`above`, `index`). */
    method AllocTable(ghost above: PhysAddr, ghost index: nat) returns (r: Option<PhysAddr>)
      modifies this
      ensures old(pool) == [] ==> r == None && View() == old(View())
      ensures old(pool) != [] ==>
                var prefix := if above in old(place) then old(place)[above].prefix else [];
                && r == Some(old(pool)[0])
                && tables == old(tables)[old(pool)[0] := map[]] && pool == old(pool)[1..]
                && place == old(place)[old(pool)[0] := P.Place(prefix + [index], above, index)]
    {
      if pool == [] {
        r := None;
      } else {
        var child := pool[0];
        ghost var prefix := if above in place then place[above].prefix else [];
        tables, pool := tables[child := map[]], pool[1..];
        place := place[child := P.Place(prefix + [index], above, index)];
        r := Some(child);
      }
    }

    /** The branch of `map_page` that allocates a table and links it. */
    method LinkNewTable(table: PhysAddr, index: nat, user: bool) returns (r: Result<PhysAddr, P.PageError>)
      modifies this
      ensures (View(), r) == P.LinkNewTable(old(View()), table, index, user)
    {
      var child := AllocTable(table, index);
      if child.None? { return Err(P.OutOfFrames); }
      var entry := P.NewEntry(child.value, P.Intermediate(user));
      if entry.Err? { return Err(entry.error); }
      var written := WriteEntry(table, index, entry.value);
      return match written
        case Err(e) => Err(e)
        case Ok(_) => Ok(child.value);
    }
  }

  method Translate(access: TableAccess, root: PhysAddr, virt: VirtAddr, mode: PagingMode)
    returns (r: Result<P.Translation, P.PageError>)
    ensures r == P.Translate(access.View(), root, virt, mode)
  {
    hide P.Contains, TableIndex, EntrySpan, P.Entry.IsPresent;
    ghost var path := Path(virt, mode);
    var table, level := root, mode.Levels();
    while level > 0
      invariant 0 <= level <= mode.Levels()
      invariant P.Walk(access.tables, table, path, level) == P.Walk(access.tables, root, path, mode.Levels())
    {
      var index := TableIndex(virt, level, mode);
      var read := access.ReadEntry(table, index);
      if read.None? { return Err(P.NotMapped); }
      var entry := read.value;
      if !entry.IsPresent() { return Err(P.NotMapped); }
      var isLeaf := entry.IsLeaf(level);
      if isLeaf.Err? { return Err(isLeaf.error); }
      if isLeaf.value {
        var size := P.SizeOfLevel(level);
        var phys := entry.frame + virt % size.Bytes();
        if phys >= TWO_52 { return Err(P.Misaligned); }
        return Ok(P.Translation(entry.frame, entry.flags, size, phys));
      }
      table, level := entry.frame, level - 1;
    }
    return Err(P.NotMapped);
  }

  method MapPage(access: TableAccess, root: PhysAddr, virt: VirtAddr, frame: PhysAddr, flags: P.PageFlags,
                 size: P.PageSize, mode: PagingMode)
    returns (r: Result<(), P.PageError>)
    modifies access
    ensures (access.View(), r) == P.MapPage(old(access.View()), root, virt, frame, flags, size, mode)
  {
    hide P.Contains, P.LinkNewTable, P.ReadEntry, P.WriteEntry, P.NewEntry, TableIndex, EntrySpan, IsKernelHalf,
         P.Intermediate, P.LeafFlags, P.Entry.IsPresent, P.Entry.IsLeaf;
    var valid := P.Validate(flags, virt, mode);
    if valid.Err? { return Err(valid.error); }
    if virt % size.Bytes() != 0 || frame % size.Bytes() != 0 { return Err(P.Misaligned); }

    var user, terminal := P.Contains(flags, P.USER), size.TerminalLevel();
    var leaf := P.NewEntry(frame, P.LeafFlags(flags, size));
    ghost var path := Path(virt, mode);
    var table, level := root, mode.Levels();
    while level > terminal
      invariant terminal <= level <= mode.Levels()
      invariant P.MapFrom(access.View(), table, path, level, terminal, user, leaf) ==
                P.MapFrom(old(access.View()), root, path, mode.Levels(), terminal, user, leaf)
    {
      var index := TableIndex(virt, level, mode);
      var read := access.ReadEntry(table, index);
      if read.None? { return Err(P.NotMapped); }
      if read.value.IsPresent() {
        var isLeaf := read.value.IsLeaf(level);
        if isLeaf.Err? { return Err(isLeaf.error); }
        if isLeaf.value { return Err(P.AlreadyMapped); }
        table := read.value.frame;
      } else {
        var child := access.LinkNewTable(table, index, user);
        if child.Err? { return Err(child.error); }
        table := child.value;
      }
      level := level - 1;
    }

    var index := TableIndex(virt, terminal, mode);
    var existing := access.ReadEntry(table, index);
    if existing.Some? && existing.value.IsPresent() { return Err(P.AlreadyMapped); }
    if leaf.Err? { return Err(leaf.error); }
    r := access.WriteEntry(table, index, leaf.value);
  }

  method UnmapPage(access: TableAccess, root: PhysAddr, virt: VirtAddr, mode: PagingMode)
    returns (r: Result<(PhysAddr, P.PageSize), P.PageError>)
    modifies access
    ensures (access.View(), r) == P.UnmapPage(old(access.View()), root, virt, mode)
  {
    hide P.Contains, TableIndex, EntrySpan, P.Entry.IsPresent;
    ghost var path := Path(virt, mode);
    var table, level := root, mode.Levels();
    while level > 0
      invariant 0 <= level <= mode.Levels() && access.View() == old(access.View())
      invariant P.Walk(access.tables, table, path, level) == P.Walk(access.tables, root, path, mode.Levels())
    {
      var index := TableIndex(virt, level, mode);
      var read := access.ReadEntry(table, index);
      if read.None? { return Err(P.NotMapped); }
      var entry := read.value;
      if !entry.IsPresent() { return Err(P.NotMapped); }
      var isLeaf := entry.IsLeaf(level);
      if isLeaf.Err? { return Err(isLeaf.error); }
      if isLeaf.value {
        var size := P.SizeOfLevel(level);
        var written := access.WriteEntry(table, index, P.EMPTY);
        return match written
          case Err(e) => Err(e)
          case Ok(_) => Ok((entry.frame, size));
      }
      table, level := entry.frame, level - 1;
    }
    return Err(P.NotMapped);
  }
}
