/** What single calls on page tables do, exactly: to walks, to translations, and to what can be mapped next. */
module PagingTheorems {
  import opened Wrappers
  import opened Words
  import opened Addr
  import opened Paging
  import opened PagingTree

  // ----- single writes, seen from the root -----------------------------------------------

  /** `path` reads cell (`t`, `i`) on its way down. */
  predicate Reads(m: Memory, t: PhysAddr, i: nat, path: seq<nat>)
    requires t in m.place
  {
    m.place[t].prefix + [i] <= path
  }

  /** A path that reads a cell visits the cell's table at the table's level. */
  lemma ReadsIsOnPath(m: Memory, t: PhysAddr, i: nat, path: seq<nat>, levels: nat)
    requires IsPath(path, levels) && t in m.place && |m.place[t].prefix| < levels && Reads(m, t, i, path)
    ensures OnPath(m, t, path, LevelOf(m, t, levels)) && path[levels - LevelOf(m, t, levels)] == i
  {
    var prefix := m.place[t].prefix;
    assert (prefix + [i])[..|prefix|] == prefix;
    assert (prefix + [i])[|prefix|] == i;
    assert path[..|prefix| + 1][..|prefix|] == path[..|prefix|];
  }

  /** After a plain write, the paths through the cell end there and no other path notices. */
  lemma PlainWriteWalk(m: Memory, root: PhysAddr, levels: nat, t: PhysAddr, i: nat, e: Entry, m': Memory,
                       path: seq<nat>)
    requires IsTree(m, root, levels) && PlainWrite(m, levels, t, i, e, m') && IsPath(path, levels)
    ensures Walk(m'.tables, root, path, levels) ==
            if !Reads(m, t, i, path) then Walk(m.tables, root, path, levels)
            else if e.IsPresent() then Ok(Leaf(t, i, e, LevelOf(m, t, levels)))
            else Err(NotMapped)
  {
    PlainWriteKeepsTree(m, root, levels, t, i, e, m');
    hide Contains, Entry.IsPresent, Entry.IsLeaf, CellsOk, HangsFromParent, PoolOk, AgreesExcept;
    assert path[..0] == [];
    if Reads(m, t, i, path) {
      ReadsIsOnPath(m, t, i, path, levels);
      WalkArrives(m', root, levels, t, path, LevelOf(m, t, levels));
    } else {
      WalkUnaffected(m, m', root, levels, t, i, root, path, levels);
    }
  }

  /** Linking an empty table changes the outcome of no walk. */
  lemma LinkKeepsWalk(m: Memory, root: PhysAddr, levels: nat, t: PhysAddr, i: nat, user: bool, path: seq<nat>)
    requires IsTree(m, root, levels) && t in m.place && i < 512 && IsPath(path, levels)
    requires !ReadEntry(m.tables, t, i).value.IsPresent()
    requires 2 <= LevelOf(m, t, levels) && m.pool != []
    ensures Walk(LinkNewTable(m, t, i, user).0.tables, root, path, levels) == Walk(m.tables, root, path, levels)
  {
    LinkKeepsTree(m, root, levels, t, i, user);
    EmptyIsAbsent();
    hide Contains, Entry.IsPresent, Entry.IsLeaf, CellsOk, HangsFromParent, PoolOk, AgreesExcept, Intermediate,
         LinkNewTable;
    var m' := LinkNewTable(m, t, i, user).0;
    var level := LevelOf(m, t, levels);
    assert path[..0] == [];
    if Reads(m, t, i, path) {
      ReadsIsOnPath(m, t, i, path, levels);
      WalkArrives(m, root, levels, t, path, level);
      WalkArrives(m', root, levels, t, path, level);
      assert Walk(m'.tables, t, path, level) == Walk(m'.tables, m.pool[0], path, level - 1);
    } else {
      WalkUnaffected(m, m', root, levels, t, i, root, path, levels);
    }
  }

  // ----- map and unmap over index paths --------------------------------------------------

  ghost predicate SameWalks(m: Memory, m': Memory, root: PhysAddr, levels: nat) {
    forall path | IsPath(path, levels) :: Walk(m'.tables, root, path, levels) == Walk(m.tables, root, path, levels)
  }

  predicate WalkFinds(m: Memory, root: PhysAddr, path: seq<nat>, leaf: Entry, level: nat) {
    var r := Walk(m.tables, root, path, |path|);
    r.Ok? && r.value.entry == leaf && r.value.level == level
  }

  /** Exactly the paths that start with `prefix` went from unmapped to `leaf`. */
  ghost predicate MapsExactly(m: Memory, m': Memory, root: PhysAddr, levels: nat, prefix: seq<nat>, leaf: Entry,
                              level: nat) {
    forall path | IsPath(path, levels) ::
      if prefix <= path then
        Walk(m.tables, root, path, levels) == Err(NotMapped) && WalkFinds(m', root, path, leaf, level)
      else
        Walk(m'.tables, root, path, levels) == Walk(m.tables, root, path, levels)
  }

  /** Exactly the paths that start with `prefix` went from `leaf` to unmapped. */
  ghost predicate UnmapsExactly(m: Memory, m': Memory, root: PhysAddr, levels: nat, prefix: seq<nat>, leaf: Entry,
                                level: nat) {
    forall path | IsPath(path, levels) ::
      if prefix <= path then
        WalkFinds(m, root, path, leaf, level) && Walk(m'.tables, root, path, levels) == Err(NotMapped)
      else
        Walk(m'.tables, root, path, levels) == Walk(m.tables, root, path, levels)
  }

  /**
    The descent of `map_page` from a table on the path: it keeps the tree, a success maps
    exactly the page, and a failure at any depth changes no walk, whatever was linked.
    */
  lemma {:induction false} MapFromCorrect(m: Memory, root: PhysAddr, levels: nat, t: PhysAddr, path: seq<nat>,
                                          level: nat, terminal: nat, user: bool, leaf: Entry)
    requires IsTree(m, root, levels) && IsPath(path, levels) && OnPath(m, t, path, level)
    requires 1 <= terminal <= 3 && terminal <= level
    requires leaf.IsPresent() && LeafOk(leaf, terminal, path[..levels - terminal + 1])
    ensures var (m', r) := MapFrom(m, t, path, level, terminal, user, Ok(leaf));
            && IsTree(m', root, levels)
            && (r.Ok? ==> MapsExactly(m, m', root, levels, path[..levels - terminal + 1], leaf, terminal))
            && (r.Err? ==> SameWalks(m, m', root, levels))
    decreases level
  {
    hide Contains, Entry.IsPresent, Entry.IsLeaf, IsTree, LinkNewTable, LeafOk, SameWalks, MapsExactly;
    var k := levels - level;
    LinkStaysOnPath(m, root, levels, t, path, level);
    assert path[..k + 1] == path[..k] + [path[k]];
    NothingChanged(m, root, levels);
    var e := ReadEntry(m.tables, t, path[k]).value;
    if level == terminal {
      if !e.IsPresent() {
        PlaceLeaf(m, root, levels, t, path, terminal, leaf);
      }
    } else if IsLink(e, level) {
      MapFromCorrect(m, root, levels, e.frame, path, level - 1, terminal, user, leaf);
    } else if !e.IsPresent() && m.pool == [] {
      NoFrames(m, t, path[k], user);
    } else if !e.IsPresent() {
      LinkStep(m, root, levels, t, path, level, user);
      var m1 := LinkNewTable(m, t, path[k], user).0;
      MapFromCorrect(m1, root, levels, m.pool[0], path, level - 1, terminal, user, leaf);
      AfterSameWalks(m, m1, MapFrom(m1, m.pool[0], path, level - 1, terminal, user, Ok(leaf)).0, root, levels,
                     path[..levels - terminal + 1], leaf, terminal);
    }
  }

  lemma NothingChanged(m: Memory, root: PhysAddr, levels: nat)
    ensures SameWalks(m, m, root, levels)
  {
    hide Walk;
  }

  lemma AfterSameWalks(m: Memory, m1: Memory, m2: Memory, root: PhysAddr, levels: nat, prefix: seq<nat>, leaf: Entry,
                       level: nat)
    requires SameWalks(m, m1, root, levels)
    ensures MapsExactly(m1, m2, root, levels, prefix, leaf, level) ==>
            MapsExactly(m, m2, root, levels, prefix, leaf, level)
    ensures SameWalks(m1, m2, root, levels) ==> SameWalks(m, m2, root, levels)
  {
    hide Walk;
  }

  lemma NoFrames(m: Memory, t: PhysAddr, i: nat, user: bool)
    requires m.pool == []
    ensures LinkNewTable(m, t, i, user) == (m, Err(OutOfFrames))
  {
  }

  lemma LinkStep(m: Memory, root: PhysAddr, levels: nat, t: PhysAddr, path: seq<nat>, level: nat, user: bool)
    requires IsTree(m, root, levels) && IsPath(path, levels) && OnPath(m, t, path, level)
    requires 2 <= level && m.pool != []
    requires !ReadEntry(m.tables, t, path[levels - level]).value.IsPresent()
    ensures var (m1, r) := LinkNewTable(m, t, path[levels - level], user);
            && r == Ok(m.pool[0]) && IsTree(m1, root, levels) && SameWalks(m, m1, root, levels)
            && OnPath(m1, m.pool[0], path, level - 1)
  {
    hide Contains, Entry.IsPresent, Entry.IsLeaf, CellsOk, HangsFromParent, PoolOk, AgreesExcept, Intermediate,
         LinkNewTable;
    var k := levels - level;
    assert path[..k + 1] == path[..k] + [path[k]];
    LinkKeepsTree(m, root, levels, t, path[k], user);
    forall p | IsPath(p, levels)
      ensures Walk(LinkNewTable(m, t, path[k], user).0.tables, root, p, levels) == Walk(m.tables, root, p, levels)
    {
      LinkKeepsWalk(m, root, levels, t, path[k], user, p);
    }
  }

  /** Writing the leaf where the descent stops at an absent cell. */
  lemma PlaceLeaf(m: Memory, root: PhysAddr, levels: nat, t: PhysAddr, path: seq<nat>, level: nat, leaf: Entry)
    requires IsTree(m, root, levels) && IsPath(path, levels) && OnPath(m, t, path, level) && 1 <= level
    requires leaf.IsPresent() && LeafOk(leaf, level, path[..levels - level + 1])
    requires ReadEntry(m.tables, t, path[levels - level]).Some?
    requires !ReadEntry(m.tables, t, path[levels - level]).value.IsPresent()
    ensures var r := WriteEntry(m, t, path[levels - level], leaf);
            && r.Ok? && IsTree(r.value, root, levels)
            && MapsExactly(m, r.value, root, levels, path[..levels - level + 1], leaf, level)
  {
    hide Contains, Entry.IsPresent, Entry.IsLeaf, IsTree;
    var k := levels - level;
    assert path[..k + 1] == path[..k] + [path[k]];
    var m' := WriteEntry(m, t, path[k], leaf).value;
    assert PlainWrite(m, levels, t, path[k], leaf, m');
    PlainWriteKeepsTree(m, root, levels, t, path[k], leaf, m');
    forall p | IsPath(p, levels)
      ensures Reads(m, t, path[k], p) ==> Walk(m.tables, root, p, levels) == Err(NotMapped)
      ensures Walk(m'.tables, root, p, levels) ==
              if Reads(m, t, path[k], p) then Ok(Leaf(t, path[k], leaf, level))
              else Walk(m.tables, root, p, levels)
    {
      PlainWriteWalk(m, root, levels, t, path[k], leaf, m', p);
      if Reads(m, t, path[k], p) {
        ReadsIsOnPath(m, t, path[k], p, levels);
        ArrivesAtAbsent(m, root, levels, t, p, level);
      }
    }
  }

  lemma ArrivesAtAbsent(m: Memory, root: PhysAddr, levels: nat, t: PhysAddr, path: seq<nat>, level: nat)
    requires IsTree(m, root, levels) && IsPath(path, levels) && OnPath(m, t, path, level) && 1 <= level
    requires ReadEntry(m.tables, t, path[levels - level]).Some?
    requires !ReadEntry(m.tables, t, path[levels - level]).value.IsPresent()
    ensures Walk(m.tables, root, path, levels) == Err(NotMapped)
  {
    hide Contains, Entry.IsPresent, Entry.IsLeaf, CellsOk, HangsFromParent, PoolOk;
    WalkArrives(m, root, levels, t, path, level);
  }

  // ----- map and unmap over addresses ----------------------------------------------------

  /** Bit `n` of the flags, numbered as in the tables of section 4.5 of the Intel SDM, volume 3A. */
  predicate HasBit(flags: PageFlags, n: bv64)
    requires n < 64
  {
    (flags >> n) & 1 == 1
  }

  lemma FlagsAreBits(flags: PageFlags)
    ensures Contains(flags, WRITABLE) <==> HasBit(flags, 1)
    ensures Contains(flags, USER) <==> HasBit(flags, 2)
    ensures Contains(flags, NO_EXECUTE) <==> HasBit(flags, 63)
  {
  }

  /** A leaf carries the flags asked for, PRESENT, the page-size bit for the larger sizes, and no other. */
  lemma LeafFlagsExactly(flags: PageFlags, size: PageSize, n: bv64)
    requires n < 64
    ensures HasBit(LeafFlags(flags, size), n) <==> HasBit(flags, n) || n == 0 || (n == 7 && size != Small)
  {
    SetsOneBit(flags, n);
    SetsTwoBits(flags, n);
    hide HasBit;
    match size {
      case Small =>
      case Large =>
      case Huge =>
    }
  }

  lemma SetsOneBit(flags: PageFlags, n: bv64)
    requires n < 64
    ensures HasBit(flags | PRESENT, n) <==> HasBit(flags, n) || n == 0
  {
    SetsBit(flags, 0, n);
  }

  lemma SetsTwoBits(flags: PageFlags, n: bv64)
    requires n < 64
    ensures HasBit(flags | PRESENT | HUGE, n) <==> HasBit(flags, n) || n == 0 || n == 7
  {
    SetsOneBit(flags, n);
    SetsBit(flags | PRESENT, 7, n);
    hide HasBit;
  }

  lemma SetsBit(flags: PageFlags, k: bv64, n: bv64)
    requires n < 64 && k < 64
    ensures HasBit(flags | (1 << k), n) <==> HasBit(flags, n) || n == k
  {
  }

  /** The requested flags survive in the leaf; only PRESENT and HUGE are added. */
  lemma LeafFlagsKeepRights(flags: PageFlags, size: PageSize)
    ensures Contains(LeafFlags(flags, size), PRESENT)
    ensures size != Small ==> Contains(LeafFlags(flags, size), HUGE)
    ensures Contains(LeafFlags(flags, size), WRITABLE) == Contains(flags, WRITABLE)
    ensures Contains(LeafFlags(flags, size), USER) == Contains(flags, USER)
    ensures Contains(LeafFlags(flags, size), NO_EXECUTE) == Contains(flags, NO_EXECUTE)
  {
    match size {
      case Small =>
      case Large =>
      case Huge =>
    }
  }

  /** A mapping that passes validation makes a sound leaf. */
  lemma RequestedLeafIsSound(virt: VirtAddr, frame: PhysAddr, flags: PageFlags, size: PageSize, mode: PagingMode)
    requires IsCanonical(virt, mode) && Validate(flags, virt, mode).Ok? && frame % size.Bytes() == 0
    ensures var leaf := Entry(frame, LeafFlags(flags, size));
            var terminal := size.TerminalLevel();
            && NewEntry(frame, LeafFlags(flags, size)) == Ok(leaf)
            && leaf.IsPresent() && LeafOk(leaf, terminal, Path(virt, mode)[..mode.Levels() - terminal + 1])
  {
    LeafFlagsKeepRights(flags, size);
    TopIndexIsSign(virt, mode);
    hide Contains, LeafFlags, IsCanonical, IsKernelHalf, TableIndex, EntrySpan;
    FrameIsPageAligned(frame, size);
    assert Path(virt, mode)[0] == TableIndex(virt, mode.Levels(), mode);
    match size {
      case Small =>
      case Large =>
      case Huge =>
    }
  }

  lemma FrameIsPageAligned(frame: PhysAddr, size: PageSize)
    requires frame % size.Bytes() == 0
    ensures frame % 0x1000 == 0
  {
    match size {
      case Small =>
      case Large =>
      case Huge =>
    }
  }

  /** The bytes of a page, and what both of its addresses have to be multiples of. */
  function BytesOf(size: PageSize): nat {
    match size
    case Small => 0x1000
    case Large => 0x20_0000
    case Huge => 0x4000_0000
  }

  lemma SizesInBytes(size: PageSize)
    ensures size.Bytes() == BytesOf(size)
  {
    match size {
      case Small => assert EntrySpan(1) == 0x1000;
      case Large => assert EntrySpan(2) == 0x20_0000;
      case Huge => assert EntrySpan(3) == 0x4000_0000;
    }
  }

  /** No byte of an aligned page lies beyond the physical address space. */
  lemma PageByteFits(frame: PhysAddr, flags: PageFlags, size: PageSize, virt: VirtAddr)
    requires frame % size.Bytes() == 0
    ensures frame + virt % size.Bytes() < TWO_52
    ensures PageByte(frame, flags, size, virt) == Ok(Translation(frame, flags, size, frame + virt % size.Bytes()))
  {
    var span := size.Bytes();
    PhysicalSpanDivides(size);
    hide EntrySpan;
    PageNeverCrosses(frame, span, virt % span, TWO_52);
  }

  lemma PhysicalSpanDivides(size: PageSize)
    ensures TWO_52 % size.Bytes() == 0
  {
    SizesInBytes(size);
  }

  ghost predicate SameTranslations(m: Memory, m': Memory, root: PhysAddr, mode: PagingMode) {
    forall w: VirtAddr | IsCanonical(w, mode) :: Translate(m', root, w, mode) == Translate(m, root, w, mode)
  }

  /** Exactly the page of `virt` went from unmapped to `frame`, byte by byte. */
  ghost predicate PageAppears(m: Memory, m': Memory, root: PhysAddr, virt: VirtAddr, frame: PhysAddr,
                              flags: PageFlags, size: PageSize, mode: PagingMode) {
    forall w: VirtAddr | IsCanonical(w, mode) ::
      if SamePage(virt, w, size.TerminalLevel()) then
        && Translate(m, root, w, mode) == Err(NotMapped)
        && Translate(m', root, w, mode) == PageByte(frame, flags, size, w)
      else Translate(m', root, w, mode) == Translate(m, root, w, mode)
  }

  /** Exactly the page of `virt` went from `frame` to unmapped. */
  ghost predicate PageDisappears(m: Memory, m': Memory, root: PhysAddr, virt: VirtAddr, frame: PhysAddr,
                                 flags: PageFlags, size: PageSize, mode: PagingMode) {
    forall w: VirtAddr | IsCanonical(w, mode) ::
      if SamePage(virt, w, size.TerminalLevel()) then
        && Translate(m, root, w, mode) == PageByte(frame, flags, size, w)
        && Translate(m', root, w, mode) == Err(NotMapped)
      else Translate(m', root, w, mode) == Translate(m, root, w, mode)
  }

  /** Where the page of `virt` starts shows in every address that shares the page's walk. */
  lemma PrefixIsPage(virt: VirtAddr, w: VirtAddr, level: nat, mode: PagingMode)
    requires IsCanonical(virt, mode) && IsCanonical(w, mode) && 1 <= level <= 3
    ensures Path(virt, mode)[..mode.Levels() - level + 1] <= Path(w, mode) <==> SamePage(virt, w, level)
  {
    hide IsCanonical, EntrySpan;
    SamePageIsSamePrefix(virt, w, level, mode);
    var n := mode.Levels() - level + 1;
    assert Path(virt, mode)[..n] <= Path(w, mode) <==> Path(virt, mode)[..n] == Path(w, mode)[..n];
  }

  /**
    `map_page` keeps the tree. When it succeeds the page was wholly unmapped, now every byte
    of it translates to the same byte of the frame, and no other address is affected; when it
    fails, at whatever point, no translation changes.
    */
  lemma MapPageCorrect(m: Memory, root: PhysAddr, virt: VirtAddr, frame: PhysAddr, flags: PageFlags, size: PageSize,
                       mode: PagingMode)
    requires IsTree(m, root, mode.Levels()) && IsCanonical(virt, mode)
    ensures var (m', r) := MapPage(m, root, virt, frame, flags, size, mode);
            && IsTree(m', root, mode.Levels())
            && (r.Ok? ==> Validate(flags, virt, mode).Ok? && virt % size.Bytes() == 0 && frame % size.Bytes() == 0)
            && (r.Ok? ==> PageAppears(m, m', root, virt, frame, LeafFlags(flags, size), size, mode))
            && (r.Err? ==> SameTranslations(m, m', root, mode))
  {
    hide IsCanonical, IsTree, IsKernelHalf, Contains, LeafFlags, SamePage, EntrySpan, MapFrom, Walk, LeafOk, PageByte;
    var (m', r) := MapPage(m, root, virt, frame, flags, size, mode);
    var levels, terminal := mode.Levels(), size.TerminalLevel();
    if Validate(flags, virt, mode).Ok? && virt % size.Bytes() == 0 && frame % size.Bytes() == 0 {
      RequestedLeafIsSound(virt, frame, flags, size, mode);
      RootOnPath(m, root, levels, Path(virt, mode));
      MapFromCorrect(m, root, levels, root, Path(virt, mode), levels, terminal, Contains(flags, USER),
                     Entry(frame, LeafFlags(flags, size)));
      if r.Ok? {
        WalksToPageAppears(m, m', root, virt, frame, LeafFlags(flags, size), size, mode);
      }
    }
  }

  lemma WalksToPageAppears(m: Memory, m': Memory, root: PhysAddr, virt: VirtAddr, frame: PhysAddr,
                           flags: PageFlags, size: PageSize, mode: PagingMode)
    requires IsCanonical(virt, mode)
    requires var terminal := size.TerminalLevel();
             MapsExactly(m, m', root, mode.Levels(), Path(virt, mode)[..mode.Levels() - terminal + 1],
                         Entry(frame, flags), terminal)
    ensures PageAppears(m, m', root, virt, frame, flags, size, mode)
  {
    hide IsCanonical, SamePage, Walk, PageByte;
    forall w: VirtAddr | IsCanonical(w, mode)
      ensures if SamePage(virt, w, size.TerminalLevel()) then
                && Translate(m, root, w, mode) == Err(NotMapped)
                && Translate(m', root, w, mode) == PageByte(frame, flags, size, w)
              else Translate(m', root, w, mode) == Translate(m, root, w, mode)
    {
      PrefixIsPage(virt, w, size.TerminalLevel(), mode);
      assert IsPath(Path(w, mode), mode.Levels());
    }
  }

  /** The byte at offset `o` of a freshly mapped page is the byte at offset `o` of its frame. */
  lemma MappedByteAtOffset(m: Memory, root: PhysAddr, virt: VirtAddr, frame: PhysAddr, flags: PageFlags,
                           size: PageSize, mode: PagingMode, o: nat)
    requires IsTree(m, root, mode.Levels()) && IsCanonical(virt, mode) && o < size.Bytes()
    requires MapPage(m, root, virt, frame, flags, size, mode).1.Ok?
    ensures virt + o < U64_SIZE && frame + o < TWO_52
    ensures Translate(MapPage(m, root, virt, frame, flags, size, mode).0, root, virt + o, mode) ==
            Ok(Translation(frame, LeafFlags(flags, size), size, frame + o))
  {
    hide IsCanonical, IsTree, SamePage, EntrySpan, MapPage, LeafFlags, Translate, PageByte;
    MapPageCorrect(m, root, virt, frame, flags, size, mode);
    PageStaysCanonical(virt, o, size.TerminalLevel(), mode);
    PageByteFits(frame, LeafFlags(flags, size), size, virt + o);
  }

  /**
    Translation of any byte of a freshly mapped page gives back every flag that was asked for. Bit 0
    is set besides, and bit 7 for the larger sizes; no other is.
    */
  lemma MappedFlagsExactly(m: Memory, root: PhysAddr, virt: VirtAddr, frame: PhysAddr, flags: PageFlags,
                           size: PageSize, mode: PagingMode, o: nat, n: bv64)
    requires IsTree(m, root, mode.Levels()) && IsCanonical(virt, mode) && o < BytesOf(size) && n < 64
    requires MapPage(m, root, virt, frame, flags, size, mode).1.Ok?
    ensures virt + o < U64_SIZE
    ensures var r := Translate(MapPage(m, root, virt, frame, flags, size, mode).0, root, virt + o, mode);
            r.Ok? && (HasBit(r.value.flags, n) <==> HasBit(flags, n) || n == 0 || (n == 7 && size != Small))
  {
    hide IsCanonical, IsTree, EntrySpan, MapPage, LeafFlags, Translate, HasBit, BytesOf;
    SizesInBytes(size);
    MappedByteAtOffset(m, root, virt, frame, flags, size, mode, o);
    LeafFlagsExactly(flags, size, n);
  }

  lemma RootOnPath(m: Memory, root: PhysAddr, levels: nat, path: seq<nat>)
    requires IsTree(m, root, levels) && |path| == levels
    ensures OnPath(m, root, path, levels)
  {
    assert path[..0] == [];
  }

  // ----- where walks end -----------------------------------------------------------------

  /** In a tree a walk ends at a sound leaf on its path, or finds nothing; it never sees corruption. */
  lemma {:induction false} WalkIsSound(m: Memory, root: PhysAddr, levels: nat, t: PhysAddr, path: seq<nat>, level: nat)
    requires IsTree(m, root, levels) && IsPath(path, levels) && OnPath(m, t, path, level)
    ensures match Walk(m.tables, t, path, level)
            case Err(e) => e == NotMapped
            case Ok(leaf) =>
              && leaf.level <= level && OnPath(m, leaf.table, path, leaf.level)
              && leaf.index == path[levels - leaf.level] && leaf.entry.IsPresent()
              && ReadEntry(m.tables, leaf.table, leaf.index) == Some(leaf.entry)
              && !IsLink(leaf.entry, leaf.level)
              && LeafOk(leaf.entry, leaf.level, path[..levels - leaf.level + 1])
    decreases level
  {
    hide Contains, Entry.IsPresent, Entry.IsLeaf, IsTree, LeafOk;
    if level > 0 {
      var k := levels - level;
      LinkStaysOnPath(m, root, levels, t, path, level);
      assert path[..k + 1] == path[..k] + [path[k]];
      var e := ReadEntry(m.tables, t, path[k]).value;
      if IsLink(e, level) {
        WalkIsSound(m, root, levels, e.frame, path, level - 1);
      }
    }
  }

  lemma ClearIsPlainWrite(m: Memory, root: PhysAddr, levels: nat, path: seq<nat>, leaf: Leaf)
    requires IsTree(m, root, levels) && IsPath(path, levels)
    requires Walk(m.tables, root, path, levels) == Ok(leaf)
    ensures var r := WriteEntry(m, leaf.table, leaf.index, EMPTY);
            && r.Ok? && PlainWrite(m, levels, leaf.table, leaf.index, EMPTY, r.value)
            && OnPath(m, leaf.table, path, leaf.level) && leaf.index == path[levels - leaf.level]
            && ReadEntry(m.tables, leaf.table, leaf.index) == Some(leaf.entry)
            && leaf.entry.IsPresent() && leaf.entry.IsLeaf(leaf.level) == Ok(true)
  {
    hide Contains, Entry.IsPresent, Entry.IsLeaf, CellsOk, PoolOk, HangsFromParent;
    RootOnPath(m, root, levels, path);
    WalkIsSound(m, root, levels, root, path, levels);
    EmptyIsAbsent();
  }

  /** `unmap_page` on index paths: the leaf goes, for every path through it, and nothing else does. */
  lemma ClearLeaf(m: Memory, root: PhysAddr, levels: nat, path: seq<nat>)
    requires IsTree(m, root, levels) && IsPath(path, levels)
    requires Walk(m.tables, root, path, levels).Ok?
    ensures var leaf := Walk(m.tables, root, path, levels).value;
            var r := WriteEntry(m, leaf.table, leaf.index, EMPTY);
            && r.Ok? && IsTree(r.value, root, levels)
            && UnmapsExactly(m, r.value, root, levels, path[..levels - leaf.level + 1], leaf.entry, leaf.level)
  {
    hide Contains, Entry.IsPresent, Entry.IsLeaf, IsTree, PlainWrite, Walk;
    var leaf := Walk(m.tables, root, path, levels).value;
    var t, i, level := leaf.table, leaf.index, leaf.level;
    ClearIsPlainWrite(m, root, levels, path, leaf);
    var m' := WriteEntry(m, t, i, EMPTY).value;
    PlainWriteKeepsTree(m, root, levels, t, i, EMPTY, m');
    EmptyIsAbsent();
    assert path[..levels - level + 1] == path[..levels - level] + [path[levels - level]];
    forall p | IsPath(p, levels)
      ensures Reads(m, t, i, p) ==> WalkFinds(m, root, p, leaf.entry, level)
      ensures Walk(m'.tables, root, p, levels) ==
              if Reads(m, t, i, p) then Err(NotMapped) else Walk(m.tables, root, p, levels)
    {
      PlainWriteWalk(m, root, levels, t, i, EMPTY, m', p);
      if Reads(m, t, i, p) {
        ReadsIsOnPath(m, t, i, p, levels);
        ArrivesAtLeaf(m, root, levels, t, p, level, leaf.entry);
      }
    }
  }

  lemma ArrivesAtLeaf(m: Memory, root: PhysAddr, levels: nat, t: PhysAddr, path: seq<nat>, level: nat, e: Entry)
    requires IsTree(m, root, levels) && IsPath(path, levels) && OnPath(m, t, path, level) && 1 <= level
    requires ReadEntry(m.tables, t, path[levels - level]) == Some(e)
    requires e.IsPresent() && e.IsLeaf(level) == Ok(true)
    ensures WalkFinds(m, root, path, e, level)
  {
    hide Contains, Entry.IsPresent, Entry.IsLeaf, CellsOk, HangsFromParent, PoolOk;
    WalkArrives(m, root, levels, t, path, level);
  }

  /**
    `unmap_page` keeps the tree. It returns the frame and size of the page that holds `virt`
    and makes exactly that page unmapped; with no such page it reports so and changes nothing.
    */
  lemma UnmapPageCorrect(m: Memory, root: PhysAddr, virt: VirtAddr, mode: PagingMode)
    requires IsTree(m, root, mode.Levels()) && IsCanonical(virt, mode)
    ensures var (m', r) := UnmapPage(m, root, virt, mode);
            var before := Translate(m, root, virt, mode);
            && IsTree(m', root, mode.Levels()) && r.Ok? == before.Ok?
            && (r.Ok? ==>
                  && r.value == (before.value.frame, before.value.size)
                  && PageDisappears(m, m', root, virt, r.value.0, before.value.flags, r.value.1, mode))
            && (r.Err? ==> r == Err(NotMapped) && before == Err(NotMapped) && m' == m)
  {
    hide IsCanonical, IsTree, Contains, Entry.IsLeaf, EntrySpan, Walk, SamePage, PageByte, LeafOk;
    var (m', r) := UnmapPage(m, root, virt, mode);
    var levels, path := mode.Levels(), Path(virt, mode);
    assert IsPath(path, levels);
    RootOnPath(m, root, levels, path);
    WalkIsSound(m, root, levels, root, path, levels);
    if r.Ok? || Walk(m.tables, root, path, levels).Ok? {
      ClearLeaf(m, root, levels, path);
      var leaf := Walk(m.tables, root, path, levels).value;
      LeafByteFits(leaf.entry, leaf.level, path[..levels - leaf.level + 1], virt);
      WalksToPageDisappears(m, m', root, virt, leaf.entry.frame, leaf.entry.flags, SizeOfLevel(leaf.level), mode);
    }
  }

  lemma LeafByteFits(entry: Entry, level: nat, path: seq<nat>, virt: VirtAddr)
    requires 1 <= level <= 3 && path != [] && LeafOk(entry, level, path)
    ensures var r := PageByte(entry.frame, entry.flags, SizeOfLevel(level), virt);
            && r.Ok? && r.value.frame == entry.frame && r.value.flags == entry.flags
            && r.value.size == SizeOfLevel(level)
  {
    PageByteFits(entry.frame, entry.flags, SizeOfLevel(level), virt);
  }

  lemma WalksToPageDisappears(m: Memory, m': Memory, root: PhysAddr, virt: VirtAddr, frame: PhysAddr,
                              flags: PageFlags, size: PageSize, mode: PagingMode)
    requires IsCanonical(virt, mode)
    requires var terminal := size.TerminalLevel();
             UnmapsExactly(m, m', root, mode.Levels(), Path(virt, mode)[..mode.Levels() - terminal + 1],
                           Entry(frame, flags), terminal)
    ensures PageDisappears(m, m', root, virt, frame, flags, size, mode)
  {
    hide IsCanonical, SamePage, Walk, PageByte;
    forall w: VirtAddr | IsCanonical(w, mode)
      ensures if SamePage(virt, w, size.TerminalLevel()) then
                && Translate(m, root, w, mode) == PageByte(frame, flags, size, w)
                && Translate(m', root, w, mode) == Err(NotMapped)
              else Translate(m', root, w, mode) == Translate(m, root, w, mode)
    {
      PrefixIsPage(virt, w, size.TerminalLevel(), mode);
      assert IsPath(Path(w, mode), mode.Levels());
    }
  }

  /** Mapping a page and unmapping any byte of it restores every translation. */
  lemma MapThenUnmapRestores(m: Memory, root: PhysAddr, virt: VirtAddr, frame: PhysAddr, flags: PageFlags,
                             size: PageSize, mode: PagingMode, inside: VirtAddr)
    requires IsTree(m, root, mode.Levels()) && IsCanonical(virt, mode) && IsCanonical(inside, mode)
    requires SamePage(virt, inside, size.TerminalLevel())
    requires MapPage(m, root, virt, frame, flags, size, mode).1.Ok?
    ensures var m1 := MapPage(m, root, virt, frame, flags, size, mode).0;
            var (m2, r) := UnmapPage(m1, root, inside, mode);
            r == Ok((frame, size)) && SameTranslations(m, m2, root, mode)
  {
    hide IsCanonical, IsTree, EntrySpan, MapPage, UnmapPage, LeafFlags, Translate, PageByte;
    MapPageCorrect(m, root, virt, frame, flags, size, mode);
    var m1 := MapPage(m, root, virt, frame, flags, size, mode).0;
    PageByteFits(frame, LeafFlags(flags, size), size, inside);
    UnmapPageCorrect(m1, root, inside, mode);
  }

  // ----- corrupted tables ----------------------------------------------------------------

  /**
    In whatever tables: the walk comes, over present entries without the page-size bit, upon a
    present entry that has it at level `bad`, where no page can be.
    */
  predicate ComesUponHuge(tables: map<PhysAddr, PageTable>, t: PhysAddr, path: seq<nat>, level: nat, bad: nat)
    requires level <= |path|
    decreases level
  {
    level >= 4 &&
    var e := ReadEntry(tables, t, path[|path| - level]);
    && e.Some? && HasBit(e.value.flags, 0)
    && if HasBit(e.value.flags, 7) then bad == level else ComesUponHuge(tables, e.value.frame, path, level - 1, bad)
  }

  lemma PresenceIsBit(flags: PageFlags)
    ensures Contains(flags, PRESENT) <==> HasBit(flags, 0)
    ensures Contains(flags, HUGE) <==> HasBit(flags, 7)
  {
  }

  /** Corruption is reported, by level, exactly when the walk comes upon it. */
  lemma {:induction false} WalkReportsHugeExactly(tables: map<PhysAddr, PageTable>, t: PhysAddr, path: seq<nat>,
                                                  level: nat, bad: nat)
    requires level <= |path| && level <= 5
    ensures Walk(tables, t, path, level) == Err(InvalidHugePage(bad)) <==> ComesUponHuge(tables, t, path, level, bad)
    decreases level
  {
    hide Contains, HasBit;
    if level > 0 {
      var e := ReadEntry(tables, t, path[|path| - level]);
      if e.Some? {
        PresenceIsBit(e.value.flags);
        WalkReportsHugeExactly(tables, e.value.frame, path, level - 1, bad);
      }
    }
  }

  /** `map_page` reports it as well, and has changed nothing. */
  lemma {:induction false} MapReportsHuge(m: Memory, t: PhysAddr, path: seq<nat>, level: nat, terminal: nat,
                                          user: bool, leaf: Entry, bad: nat)
    requires 1 <= terminal <= 3 && terminal <= level <= |path| && level <= 5
    requires ComesUponHuge(m.tables, t, path, level, bad)
    ensures MapFrom(m, t, path, level, terminal, user, Ok(leaf)) == (m, Err(InvalidHugePage(bad)))
    decreases level
  {
    hide Contains, HasBit;
    var e := ReadEntry(m.tables, t, path[|path| - level]);
    PresenceIsBit(e.value.flags);
    if !HasBit(e.value.flags, 7) {
      MapReportsHuge(m, e.value.frame, path, level - 1, terminal, user, leaf, bad);
    }
  }

  // ----- when map_page refuses -----------------------------------------------------------

  /** At most one table lies on a path at a level. */
  lemma {:induction false} OneTablePerLevel(m: Memory, root: PhysAddr, levels: nat, a: PhysAddr, b: PhysAddr,
                                            path: seq<nat>, level: nat)
    requires PlacesOk(m, root, levels) && IsPath(path, levels)
    requires OnPath(m, a, path, level) && OnPath(m, b, path, level)
    ensures a == b
    decreases levels - level
  {
    hide Contains, Entry.IsPresent, Entry.IsLeaf, HangsFromParent;
    if a != root && b != root {
      ParentOnPath(m, root, levels, a, path, level);
      ParentOnPath(m, root, levels, b, path, level);
      OneTablePerLevel(m, root, levels, m.place[a].parent, m.place[b].parent, path, level + 1);
    } else if a != root {
      ParentOnPath(m, root, levels, a, path, level);
    } else if b != root {
      ParentOnPath(m, root, levels, b, path, level);
    }
  }

  /** A table deeper on the path means that every table above it links on along the path. */
  lemma {:induction false} LinksTowards(m: Memory, root: PhysAddr, levels: nat, t: PhysAddr, level: nat,
                                        x: PhysAddr, deeper: nat, path: seq<nat>)
    requires PlacesOk(m, root, levels) && IsPath(path, levels)
    requires OnPath(m, t, path, level) && OnPath(m, x, path, deeper) && deeper < level
    ensures var e := ReadEntry(m.tables, t, path[levels - level]); e.Some? && IsLink(e.value, level)
    decreases level - deeper
  {
    hide Contains, Entry.IsPresent, Entry.IsLeaf, HangsFromParent;
    assert x != root by { assert |m.place[x].prefix| == levels - deeper; }
    ParentOnPath(m, root, levels, x, path, deeper);
    if deeper + 1 == level {
      OneTablePerLevel(m, root, levels, t, m.place[x].parent, path, level);
    } else {
      LinksTowards(m, root, levels, t, level, m.place[x].parent, deeper + 1, path);
    }
  }

  /** A table, perhaps an empty one, hangs where the entry of the page would go. */
  ghost predicate TableInTheWay(m: Memory, path: seq<nat>, terminal: nat)
    requires 1 <= terminal <= |path|
  {
    exists x: PhysAddr | x in m.place :: OnPath(m, x, path, terminal - 1)
  }

  /** The address is already in a page of at least the size that `terminal` maps. */
  predicate LeafInTheWay(m: Memory, root: PhysAddr, path: seq<nat>, terminal: nat) {
    var r := Walk(m.tables, root, path, |path|);
    r.Ok? && r.value.level >= terminal
  }

  /** How many tables are still missing between the deepest one on the path and the page's own. */
  function MissingTables(m: Memory, t: PhysAddr, path: seq<nat>, level: nat, terminal: nat): (n: nat)
    requires 1 <= terminal <= level <= |path|
    ensures n <= level - terminal
    decreases level
  {
    var e := ReadEntry(m.tables, t, path[|path| - level]);
    if level > terminal && e.Some? && IsLink(e.value, level)
    then MissingTables(m, e.value.frame, path, level - 1, terminal)
    else level - terminal
  }

  /** What `map_page` finds on its way down decides its answer, exactly. */
  lemma {:induction false} MapFromDecides(m: Memory, root: PhysAddr, levels: nat, t: PhysAddr, path: seq<nat>,
                                          level: nat, terminal: nat, user: bool, leaf: Entry)
    requires IsTree(m, root, levels) && IsPath(path, levels) && OnPath(m, t, path, level)
    requires 1 <= terminal <= 3 && terminal <= level
    ensures var r := MapFrom(m, t, path, level, terminal, user, Ok(leaf)).1;
            && (r == Err(AlreadyMapped) <==> TableInTheWay(m, path, terminal) || LeafInTheWay(m, root, path, terminal))
            && (r == Err(OutOfFrames) <==>
                 r != Err(AlreadyMapped) && |m.pool| < MissingTables(m, t, path, level, terminal))
            && (r.Err? ==> r == Err(AlreadyMapped) || r == Err(OutOfFrames))
    decreases level
  {
    hide Contains, Entry.IsPresent, Entry.IsLeaf, CellsOk, PoolOk, HangsFromParent, LinkNewTable, TableInTheWay;
    var k := levels - level;
    LinkStaysOnPath(m, root, levels, t, path, level);
    assert path[..k + 1] == path[..k] + [path[k]];
    var e := ReadEntry(m.tables, t, path[k]).value;
    WalkArrives(m, root, levels, t, path, level);
    if !IsLink(e, level) {
      NoTableBelow(m, root, levels, t, path, level, terminal);
    }
    if level == terminal {
      if IsLink(e, level) {
        TableBelow(m, e.frame, path, terminal);
      }
    } else if IsLink(e, level) {
      MapFromDecides(m, root, levels, e.frame, path, level - 1, terminal, user, leaf);
    } else if !e.IsPresent() && m.pool == [] {
      NoFrames(m, t, path[k], user);
    } else if !e.IsPresent() {
      LinkStep(m, root, levels, t, path, level, user);
      LinkPutsNothingInTheWay(m, root, levels, t, path, level, terminal, user);
      var m1 := LinkNewTable(m, t, path[k], user).0;
      MapFromDecides(m1, root, levels, m.pool[0], path, level - 1, terminal, user, leaf);
    }
  }

  /** Under a fresh table everything is still missing, and nothing is in the way that was not before. */
  lemma LinkPutsNothingInTheWay(m: Memory, root: PhysAddr, levels: nat, t: PhysAddr, path: seq<nat>, level: nat,
                                terminal: nat, user: bool)
    requires IsTree(m, root, levels) && IsPath(path, levels) && OnPath(m, t, path, level)
    requires 1 <= terminal < level && terminal <= 3 && m.pool != []
    requires !ReadEntry(m.tables, t, path[levels - level]).value.IsPresent()
    requires !TableInTheWay(m, path, terminal)
    ensures var m1 := LinkNewTable(m, t, path[levels - level], user).0;
            && !TableInTheWay(m1, path, terminal) && |m1.pool| == |m.pool| - 1
            && LeafInTheWay(m1, root, path, terminal) == LeafInTheWay(m, root, path, terminal)
            && MissingTables(m1, m.pool[0], path, level - 1, terminal) == level - 1 - terminal
  {
    LinkPutsNoTableInTheWay(m, root, levels, t, path, level, terminal, user);
    LinkStep(m, root, levels, t, path, level, user);
    NewTableIsEmpty(m, root, levels, t, path[levels - level], user, path[levels - level + 1]);
    EmptyIsAbsent();
    hide Contains, Entry.IsPresent, Entry.IsLeaf, IsTree, LinkNewTable, TableInTheWay, Walk, OnPath;
  }

  lemma NewTableIsEmpty(m: Memory, root: PhysAddr, levels: nat, t: PhysAddr, i: nat, user: bool, j: nat)
    requires IsTree(m, root, levels) && t in m.place && i < 512 && j < 512 && m.pool != []
    ensures ReadEntry(LinkNewTable(m, t, i, user).0.tables, m.pool[0], j) == Some(EMPTY)
  {
    hide Contains, Intermediate, CellsOk, HangsFromParent;
    assert t in m.tables;
  }

  lemma TableBelow(m: Memory, x: PhysAddr, path: seq<nat>, terminal: nat)
    requires 1 <= terminal <= |path| && OnPath(m, x, path, terminal - 1)
    ensures TableInTheWay(m, path, terminal)
  {
  }

  lemma NoTableBelow(m: Memory, root: PhysAddr, levels: nat, t: PhysAddr, path: seq<nat>, level: nat, terminal: nat)
    requires PlacesOk(m, root, levels) && IsPath(path, levels) && OnPath(m, t, path, level) && 1 <= terminal <= level
    requires var e := ReadEntry(m.tables, t, path[levels - level]); e.Some? ==> !IsLink(e.value, level)
    ensures !TableInTheWay(m, path, terminal)
  {
    hide Contains, Entry.IsPresent, Entry.IsLeaf, PlacesOk;
    if x: PhysAddr :| x in m.place && OnPath(m, x, path, terminal - 1) {
      LinksTowards(m, root, levels, t, level, x, terminal - 1, path);
    }
  }

  lemma LinkPutsNoTableInTheWay(m: Memory, root: PhysAddr, levels: nat, t: PhysAddr, path: seq<nat>, level: nat,
                                terminal: nat, user: bool)
    requires IsTree(m, root, levels) && IsPath(path, levels) && OnPath(m, t, path, level)
    requires 1 <= terminal < level && m.pool != []
    requires !ReadEntry(m.tables, t, path[levels - level]).value.IsPresent()
    requires !TableInTheWay(m, path, terminal)
    ensures var m1 := LinkNewTable(m, t, path[levels - level], user).0;
            !TableInTheWay(m1, path, terminal) && |m1.pool| == |m.pool| - 1
  {
    hide Contains, Entry.IsPresent, Entry.IsLeaf, CellsOk, PoolOk, HangsFromParent, LinkNewTable, AgreesExcept,
         Intermediate;
    LinkKeepsTree(m, root, levels, t, path[levels - level], user);
    var m1 := LinkNewTable(m, t, path[levels - level], user).0;
    forall x: PhysAddr | x in m1.place
      ensures !OnPath(m1, x, path, terminal - 1)
    {
      if x == m.pool[0] {
        assert |m1.place[x].prefix| == levels - level + 1;
      } else {
        assert x in m.place && !OnPath(m, x, path, terminal - 1);
      }
    }
  }

  /** What is asked for by the flags: bit 1 to write, bit 63 not to execute, bit 2 for users. */
  lemma ValidateExactly(flags: PageFlags, virt: VirtAddr, mode: PagingMode)
    requires IsCanonical(virt, mode)
    ensures Validate(flags, virt, mode) ==
            if HasBit(flags, 1) && !HasBit(flags, 63) then Err(WriteExecute)
            else if HasBit(flags, 2) && virt >= 0x8000_0000_0000_0000 then Err(UserMappingInKernelHalf)
            else Ok(())
  {
    FlagsAreBits(flags);
    KernelHalfIsUpperHalf(virt, mode);
    hide Contains, HasBit, IsCanonical, IsKernelHalf;
  }

  /**
    The whole decision of `map_page`, in the order of its checks: a page to write and to execute, a
    page for users in the upper half, misalignment, a page or a table (even an empty one) in the
    way, too few frames for the missing tables; it succeeds exactly when there is none of these.
    */
  lemma MapPageDecides(m: Memory, root: PhysAddr, virt: VirtAddr, frame: PhysAddr, flags: PageFlags,
                       size: PageSize, mode: PagingMode)
    requires IsTree(m, root, mode.Levels()) && IsCanonical(virt, mode)
    ensures MapPage(m, root, virt, frame, flags, size, mode).1 ==
            var path, terminal := Path(virt, mode), size.TerminalLevel();
            if HasBit(flags, 1) && !HasBit(flags, 63) then Err(WriteExecute)
            else if HasBit(flags, 2) && virt >= 0x8000_0000_0000_0000 then Err(UserMappingInKernelHalf)
            else if virt % BytesOf(size) != 0 || frame % BytesOf(size) != 0 then Err(Misaligned)
            else if TableInTheWay(m, path, terminal) || LeafInTheWay(m, root, path, terminal) then Err(AlreadyMapped)
            else if |m.pool| < MissingTables(m, root, path, mode.Levels(), terminal) then Err(OutOfFrames)
            else Ok(())
  {
    hide IsCanonical, IsTree, IsKernelHalf, Contains, LeafFlags, EntrySpan, MapFrom, Walk, LeafOk, TableInTheWay,
         LeafInTheWay, MissingTables, HasBit, BytesOf;
    var levels, path := mode.Levels(), Path(virt, mode);
    ValidateExactly(flags, virt, mode);
    SizesInBytes(size);
    if Validate(flags, virt, mode).Ok? && virt % size.Bytes() == 0 && frame % size.Bytes() == 0 {
      RequestedLeafIsSound(virt, frame, flags, size, mode);
      RootOnPath(m, root, levels, path);
      assert IsPath(path, levels);
      MapFromDecides(m, root, levels, root, path, levels, size.TerminalLevel(), Contains(flags, USER),
                     Entry(frame, LeafFlags(flags, size)));
      var r := MapPage(m, root, virt, frame, flags, size, mode).1;
      assert r.Ok? ==> r.value == ();
    }
  }

  /** An address space with nothing mapped: an empty root and frames for tables to come. */
  function EmptySpace(root: PhysAddr, pool: seq<PhysAddr>): Memory {
    Memory(map[root := map[]], pool, map[root := Place([], root, 0)])
  }

  /** A table outlives its pages: a small page, once unmapped, still blocks the large page around it. */
  lemma LeftoverTableBlocksLargePage(m: Memory, root: PhysAddr, virt: VirtAddr, frame: PhysAddr, flags: PageFlags,
                                     largeFrame: PhysAddr, mode: PagingMode)
    requires IsTree(m, root, mode.Levels()) && IsCanonical(virt, mode)
    requires virt % Large.Bytes() == 0 && largeFrame % Large.Bytes() == 0
    requires MapPage(m, root, virt, frame, flags, Small, mode).1.Ok?
    ensures var m1 := MapPage(m, root, virt, frame, flags, Small, mode).0;
            var m2 := UnmapPage(m1, root, virt, mode).0;
            && UnmapPage(m1, root, virt, mode).1.Ok?
            && Translate(m2, root, virt, mode) == Err(NotMapped)
            && MapPage(m2, root, virt, largeFrame, flags, Large, mode).1 == Err(AlreadyMapped)
  {
    hide IsCanonical, IsTree, IsKernelHalf, Contains, LeafFlags, EntrySpan, MapFrom, Walk, LeafOk, TableInTheWay,
         Entry.IsLeaf;
    var levels, path := mode.Levels(), Path(virt, mode);
    MapPageCorrect(m, root, virt, frame, flags, Small, mode);
    PageByteFits(frame, LeafFlags(flags, Small), Small, virt);
    var m1 := MapPage(m, root, virt, frame, flags, Small, mode).0;
    UnmapPageCorrect(m1, root, virt, mode);
    var m2 := UnmapPage(m1, root, virt, mode).0;
    assert IsPath(path, levels);
    RootOnPath(m1, root, levels, path);
    WalkIsSound(m1, root, levels, root, path, levels);
    var leaf := Walk(m1.tables, root, path, levels).value;
    assert leaf.level == 1;
    TableBelow(m2, leaf.table, path, 2);
    RequestedLeafIsSound(virt, largeFrame, flags, Large, mode);
    RootOnPath(m2, root, levels, path);
    MapFromDecides(m2, root, levels, root, path, levels, 2, Contains(flags, USER),
                   Entry(largeFrame, LeafFlags(flags, Large)));
    assert SamePage(virt, virt, Small.TerminalLevel()) && Large.TerminalLevel() == 2;
  }
}
