/**
  The rights the hardware grants, gathered down the walk: writing and executing depend on the
  leaf alone; access for users also depends on the tables that were there when it was mapped.
  */
module PagingRights {
  import opened Wrappers
  import opened Addr
  import opened Paging
  import opened PagingTree
  import opened PagingTheorems

  datatype Rights = Rights(writable: bool, noExecute: bool, user: bool)

  /** WRITABLE and USER are ANDed and NO_EXECUTE is ORed down the walk. */
  function EffectiveRights(tables: map<PhysAddr, PageTable>, table: PhysAddr, path: seq<nat>, level: nat, above: Rights)
    : Option<Rights>
    requires level <= |path|
    decreases level
  {
    if level == 0 then None
    else
      match ReadEntry(tables, table, path[|path| - level])
      case None => None
      case Some(e) =>
        var rights := Rights(above.writable && Contains(e.flags, WRITABLE),
                             above.noExecute || Contains(e.flags, NO_EXECUTE),
                             above.user && Contains(e.flags, USER));
        if IsLink(e, level) then EffectiveRights(tables, e.frame, path, level - 1, rights)
        else if e.IsPresent() then Some(rights)
        else None
  }

  /** Nothing is withheld above the root. */
  const ALL: Rights := Rights(true, false, true)

  /** Every link on the walk lets users through. */
  predicate LinksCarryUser(tables: map<PhysAddr, PageTable>, table: PhysAddr, path: seq<nat>, level: nat)
    requires level <= |path|
    decreases level
  {
    level > 0 ==>
      var e := ReadEntry(tables, table, path[|path| - level]);
      e.Some? && IsLink(e.value, level) ==>
        Contains(e.value.flags, USER) && LinksCarryUser(tables, e.value.frame, path, level - 1)
  }

  lemma {:induction false} RightsFollowWalk(m: Memory, root: PhysAddr, levels: nat, t: PhysAddr, path: seq<nat>,
                                            level: nat, user: bool)
    requires IsTree(m, root, levels) && IsPath(path, levels) && OnPath(m, t, path, level)
    ensures EffectiveRights(m.tables, t, path, level, Rights(true, false, user)) ==
            match Walk(m.tables, t, path, level)
            case Err(_) => None
            case Ok(leaf) =>
              Some(Rights(Contains(leaf.entry.flags, WRITABLE), Contains(leaf.entry.flags, NO_EXECUTE),
                          user && LinksCarryUser(m.tables, t, path, level) && Contains(leaf.entry.flags, USER)))
    decreases level
  {
    hide Contains, Entry.IsPresent, Entry.IsLeaf, IsTree, LeafOk;
    if level > 0 {
      var k := levels - level;
      LinkStaysOnPath(m, root, levels, t, path, level);
      var e := ReadEntry(m.tables, t, path[k]).value;
      if IsLink(e, level) {
        RightsFollowWalk(m, root, levels, e.frame, path, level - 1, user && Contains(e.flags, USER));
      }
    }
  }

  /**
    In every tree the effective rights to write and execute are those of the leaf, so no address is
    effectively both writable and executable; users get in exactly when the leaf and every link
    above it let them, and never into the kernel half.
    */
  lemma RightsExactly(m: Memory, root: PhysAddr, virt: VirtAddr, mode: PagingMode)
    requires IsTree(m, root, mode.Levels()) && IsCanonical(virt, mode)
    ensures var rights := EffectiveRights(m.tables, root, Path(virt, mode), mode.Levels(), ALL);
            match Translate(m, root, virt, mode)
            case Err(_) => rights == None
            case Ok(t) =>
              && rights == Some(Rights(Contains(t.flags, WRITABLE), Contains(t.flags, NO_EXECUTE),
                                       Contains(t.flags, USER)
                                         && LinksCarryUser(m.tables, root, Path(virt, mode), mode.Levels())))
              && WriteXorExecute(t.flags)
              && (IsKernelHalf(virt, mode) ==> !Contains(t.flags, USER))
  {
    hide IsCanonical, IsTree, Contains, Entry.IsLeaf, EntrySpan, Walk, PageByte, IsKernelHalf, TableIndex,
         EffectiveRights, LinksCarryUser;
    var levels, path := mode.Levels(), Path(virt, mode);
    assert IsPath(path, levels);
    RootOnPath(m, root, levels, path);
    RightsFollowWalk(m, root, levels, root, path, levels, true);
    WalkIsSound(m, root, levels, root, path, levels);
    var r := Walk(m.tables, root, path, levels);
    if r.Ok? {
      LeafByteFits(r.value.entry, r.value.level, path[..levels - r.value.level + 1], virt);
      TopIndexIsSign(virt, mode);
      assert path[0] == TableIndex(virt, levels, mode);
    }
  }

  // ----- what a mapping leaves alone -----------------------------------------------------

  predicate IsPresentAt(m: Memory, t: PhysAddr, i: nat) {
    t in m.tables && i < 512 && ReadEntry(m.tables, t, i).value.IsPresent()
  }

  /** No present entry was changed. */
  ghost predicate PresentStay(m: Memory, m': Memory) {
    forall t: PhysAddr, i: nat | IsPresentAt(m, t, i) ::
      IsPresentAt(m', t, i) && ReadEntry(m'.tables, t, i) == ReadEntry(m.tables, t, i)
  }

  lemma WriteKeepsPresent(m: Memory, t: PhysAddr, i: nat, e: Entry)
    requires t in m.tables && i < 512 && !IsPresentAt(m, t, i)
    ensures WriteEntry(m, t, i, e).Ok? && PresentStay(m, WriteEntry(m, t, i, e).value)
  {
    hide Entry.IsPresent;
  }

  lemma LinkingKeepsPresent(m: Memory, t: PhysAddr, i: nat, user: bool)
    requires t in m.tables && i < 512 && !IsPresentAt(m, t, i) && m.pool != [] && m.pool[0] !in m.tables
    requires m.pool[0] % 0x1000 == 0
    ensures PresentStay(m, LinkNewTable(m, t, i, user).0)
    ensures ReadEntry(LinkNewTable(m, t, i, user).0.tables, t, i) == Some(Entry(m.pool[0], Intermediate(user)))
  {
    hide Entry.IsPresent, Intermediate;
  }

  /**
    `map_page` changes no present entry, uses one frame for each missing table, and gives new
    links USER exactly as asked.
    */
  lemma {:induction false} MapFromAdds(m: Memory, root: PhysAddr, levels: nat, t: PhysAddr, path: seq<nat>,
                                       level: nat, terminal: nat, user: bool, leaf: Entry, other: seq<nat>)
    requires IsTree(m, root, levels) && IsPath(path, levels) && IsPath(other, levels) && OnPath(m, t, path, level)
    requires 1 <= terminal <= 3 && terminal <= level
    requires leaf.IsPresent() && LeafOk(leaf, terminal, path[..levels - terminal + 1])
    requires SharesTables(path, other, levels, terminal)
    ensures var (m', r) := MapFrom(m, t, path, level, terminal, user, Ok(leaf));
            && PresentStay(m, m')
            && (r.Ok? ==> |m'.pool| == |m.pool| - MissingTables(m, t, path, level, terminal))
            && (r.Ok? ==>
                  (LinksCarryUser(m'.tables, t, other, level) <==>
                     LinksCarryUser(m.tables, t, path, level)
                       && (user || MissingTables(m, t, path, level, terminal) == 0)))
    decreases level
  {
    hide Contains, Entry.IsPresent, Entry.IsLeaf, IsTree, LinkNewTable, LeafOk, PresentStay, CellOk, LinksCarryUser;
    var k := levels - level;
    LinkStaysOnPath(m, root, levels, t, path, level);
    assert path[..k + 1] == path[..k] + [path[k]];
    NothingMoves(m);
    var m' := MapFrom(m, t, path, level, terminal, user, Ok(leaf)).0;
    var e := ReadEntry(m.tables, t, path[k]).value;
    if level == terminal {
      if !e.IsPresent() {
        WriteKeepsPresent(m, t, path[k], leaf);
        NoLinkAtTerminal(m, t, path, levels, terminal, leaf, other);
      }
    } else if IsLink(e, level) {
      MapFromAdds(m, root, levels, e.frame, path, level - 1, terminal, user, leaf, other);
      StaysThere(m, m', t, path[k]);
      LinksBelow(m.tables, t, path, level, e);
      LinksBelow(m'.tables, t, other, level, e);
    } else if !e.IsPresent() && m.pool == [] {
      NoFrames(m, t, path[k], user);
    } else if !e.IsPresent() {
      LinkStep(m, root, levels, t, path, level, user);
      var m1 := LinkNewTable(m, t, path[k], user).0;
      FreshLink(m, root, levels, t, path, level, terminal, user);
      MapFromAdds(m1, root, levels, m.pool[0], path, level - 1, terminal, user, leaf, other);
      StaysThere(m1, m', t, path[k]);
      PresentStayOn(m, m1, m');
      NoLinksBelow(m.tables, t, path, level);
      LinksBelow(m'.tables, t, other, level, Entry(m.pool[0], Intermediate(user)));
    }
  }

  lemma LinksBelow(tables: map<PhysAddr, PageTable>, t: PhysAddr, path: seq<nat>, level: nat, link: Entry)
    requires 0 < level <= |path| && IsLink(link, level) && ReadEntry(tables, t, path[|path| - level]) == Some(link)
    ensures LinksCarryUser(tables, t, path, level) <==>
            Contains(link.flags, USER) && LinksCarryUser(tables, link.frame, path, level - 1)
  {
    hide Contains, Entry.IsPresent, Entry.IsLeaf, IsLink, ReadEntry;
  }

  lemma NoLinksBelow(tables: map<PhysAddr, PageTable>, t: PhysAddr, path: seq<nat>, level: nat)
    requires 0 < level <= |path| && ReadEntry(tables, t, path[|path| - level]).Some?
    requires !ReadEntry(tables, t, path[|path| - level]).value.IsPresent()
    ensures LinksCarryUser(tables, t, path, level)
  {
    hide Contains, Entry.IsPresent, ReadEntry;
  }

  lemma NothingMoves(m: Memory)
    ensures PresentStay(m, m)
  {
    hide Entry.IsPresent;
  }

  lemma PresentStayOn(m: Memory, m1: Memory, m2: Memory)
    requires PresentStay(m, m1) && PresentStay(m1, m2)
    ensures PresentStay(m, m2)
  {
    hide Entry.IsPresent;
  }

  lemma StaysThere(m: Memory, m': Memory, t: PhysAddr, i: nat)
    requires PresentStay(m, m') && IsPresentAt(m, t, i)
    ensures ReadEntry(m'.tables, t, i) == ReadEntry(m.tables, t, i)
  {
    hide Entry.IsPresent;
  }

  /** Where a page goes there is no link below, before or after. */
  lemma NoLinkAtTerminal(m: Memory, t: PhysAddr, path: seq<nat>, levels: nat, terminal: nat, leaf: Entry,
                         other: seq<nat>)
    requires IsPath(path, levels) && IsPath(other, levels) && 1 <= terminal <= 3
             && SharesTables(path, other, levels, terminal)
    requires LeafOk(leaf, terminal, path[..levels - terminal + 1])
    requires t in m.tables && !IsPresentAt(m, t, path[levels - terminal])
    ensures LinksCarryUser(m.tables, t, path, terminal)
    ensures LinksCarryUser(WriteEntry(m, t, path[levels - terminal], leaf).value.tables, t, other, terminal)
  {
    hide Contains, Entry.IsPresent;
  }

  /** What a fresh link is like, and the table it leads to. */
  lemma FreshLink(m: Memory, root: PhysAddr, levels: nat, t: PhysAddr, path: seq<nat>, level: nat, terminal: nat,
                  user: bool)
    requires IsTree(m, root, levels) && IsPath(path, levels) && OnPath(m, t, path, level)
    requires 1 <= terminal < level && m.pool != []
    requires !ReadEntry(m.tables, t, path[levels - level]).value.IsPresent()
    ensures var i := path[levels - level];
            var m1 := LinkNewTable(m, t, i, user).0;
            var link := Entry(m.pool[0], Intermediate(user));
            && PresentStay(m, m1) && |m1.pool| == |m.pool| - 1
            && IsPresentAt(m1, t, i) && ReadEntry(m1.tables, t, i) == Some(link)
            && IsLink(link, level) && (Contains(link.flags, USER) <==> user)
            && LinksCarryUser(m1.tables, m.pool[0], path, level - 1)
            && MissingTables(m1, m.pool[0], path, level - 1, terminal) == level - 1 - terminal
  {
    var i := path[levels - level];
    FreshFrame(m, root, levels, t);
    LinkingKeepsPresent(m, t, i, user);
    IntermediateIsLink(m.pool[0], user, level);
    IntermediateUser(user);
    NewTableIsEmpty(m, root, levels, t, i, user, path[levels - level + 1]);
    EmptyIsAbsent();
    hide Contains, Entry.IsPresent, Entry.IsLeaf, IsTree, Intermediate;
  }

  lemma FreshFrame(m: Memory, root: PhysAddr, levels: nat, t: PhysAddr)
    requires IsTree(m, root, levels) && t in m.place && m.pool != []
    ensures t in m.tables && m.pool[0] !in m.tables && m.pool[0] % 0x1000 == 0
  {
    hide CellsOk, HangsFromParent;
  }

  lemma IntermediateUser(user: bool)
    ensures Contains(Intermediate(user), USER) <==> user
  {
  }

  /**
    The two paths visit the same tables down to level `terminal`, and there the same entry unless
    it cannot be a link.
    */
  predicate SharesTables(path: seq<nat>, other: seq<nat>, levels: nat, terminal: nat)
    requires |path| == |other| == levels && 1 <= terminal <= levels
  {
    && (forall k | 0 <= k < levels - terminal :: path[k] == other[k])
    && (terminal == 1 || path[levels - terminal] == other[levels - terminal])
  }

  /** Where a walk finds rights it finds the same ones after a call that leaves present entries alone. */
  lemma {:induction false} RightsStay(m: Memory, m': Memory, t: PhysAddr, path: seq<nat>, level: nat, above: Rights)
    requires level <= |path| && PresentStay(m, m')
    requires EffectiveRights(m.tables, t, path, level, above).Some?
    ensures EffectiveRights(m'.tables, t, path, level, above) == EffectiveRights(m.tables, t, path, level, above)
    decreases level
  {
    hide Contains, Entry.IsPresent, Entry.IsLeaf, PresentStay;
    var i := path[|path| - level];
    var e := ReadEntry(m.tables, t, i).value;
    assert IsPresentAt(m, t, i);
    StaysThere(m, m', t, i);
    var rights := Rights(above.writable && Contains(e.flags, WRITABLE),
                         above.noExecute || Contains(e.flags, NO_EXECUTE),
                         above.user && Contains(e.flags, USER));
    if IsLink(e, level) { RightsStay(m, m', e.frame, path, level - 1, rights); }
  }

  // ----- calls ---------------------------------------------------------------------------

  /** What `map_page` does to links and frames, in terms of addresses. */
  lemma MapPageAdds(m: Memory, root: PhysAddr, virt: VirtAddr, frame: PhysAddr, flags: PageFlags, size: PageSize,
                    mode: PagingMode, w: VirtAddr)
    requires IsTree(m, root, mode.Levels()) && IsCanonical(virt, mode) && IsCanonical(w, mode)
    requires SharesTables(Path(virt, mode), Path(w, mode), mode.Levels(), size.TerminalLevel())
    ensures var (m', r) := MapPage(m, root, virt, frame, flags, size, mode);
            var levels, missing := mode.Levels(),
            MissingTables(m, root, Path(virt, mode), mode.Levels(), size.TerminalLevel());
            && PresentStay(m, m')
            && (r.Ok? ==> |m'.pool| == |m.pool| - missing)
            && (r.Ok? ==> (LinksCarryUser(m'.tables, root, Path(w, mode), levels) <==>
                             LinksCarryUser(m.tables, root, Path(virt, mode), levels)
                               && (Contains(flags, USER) || missing == 0)))
  {
    hide IsCanonical, IsTree, IsKernelHalf, Contains, LeafFlags, EntrySpan, MapFrom, LeafOk, MissingTables,
         LinksCarryUser,
         SharesTables, TableIndex, PresentStay;
    var levels, terminal, path := mode.Levels(), size.TerminalLevel(), Path(virt, mode);
    assert IsPath(path, levels) && IsPath(Path(w, mode), levels);
    if Validate(flags, virt, mode).Ok? && virt % size.Bytes() == 0 && frame % size.Bytes() == 0 {
      RequestedLeafIsSound(virt, frame, flags, size, mode);
      RootOnPath(m, root, levels, path);
      MapFromAdds(m, root, levels, root, path, levels, terminal, Contains(flags, USER),
                  Entry(frame, LeafFlags(flags, size)), Path(w, mode));
    } else {
      NothingMoves(m);
    }
  }

  /** Addresses in the same page of the next size share all tables. */
  lemma SamePageSharesTables(v: VirtAddr, w: VirtAddr, size: PageSize, mode: PagingMode)
    requires IsCanonical(v, mode) && IsCanonical(w, mode)
    requires SamePage(v, w, size.TerminalLevel()) || (size.Small? && SamePage(v, w, 2))
    ensures SharesTables(Path(v, mode), Path(w, mode), mode.Levels(), size.TerminalLevel())
  {
    hide IsCanonical, EntrySpan, TableIndex;
    var level := if SamePage(v, w, size.TerminalLevel()) then size.TerminalLevel() else 2;
    SamePageIsSamePrefix(v, w, level, mode);
    var a, b, n := Path(v, mode), Path(w, mode), mode.Levels() - level + 1;
    assert forall k | 0 <= k < n :: a[k] == a[..n][k] && b[k] == b[..n][k];
  }

  /**
    After a successful `map_page` every byte of the page can be written and executed as asked. It
    is open to users exactly when that was asked and no link that was already on its path lacked
    USER: tables linked earlier for other pages are not widened.
    */
  lemma MappedPageIsOpenExactly(m: Memory, root: PhysAddr, virt: VirtAddr, frame: PhysAddr, flags: PageFlags,
                                size: PageSize,
                                mode: PagingMode, w: VirtAddr)
    requires IsTree(m, root, mode.Levels()) && IsCanonical(virt, mode) && IsCanonical(w, mode)
    requires SamePage(virt, w, size.TerminalLevel()) && MapPage(m, root, virt, frame, flags, size, mode).1.Ok?
    ensures var m' := MapPage(m, root, virt, frame, flags, size, mode).0;
            EffectiveRights(m'.tables, root, Path(w, mode), mode.Levels(), ALL) ==
            Some(Rights(Contains(flags, WRITABLE), Contains(flags, NO_EXECUTE),
                        Contains(flags, USER) && LinksCarryUser(m.tables, root, Path(virt, mode), mode.Levels())))
  {
    hide IsCanonical, IsTree, IsKernelHalf, Contains, LeafFlags, EntrySpan, MapPage, EffectiveRights, LinksCarryUser,
         MissingTables, TableIndex, SharesTables, SamePage, PresentStay, Translate, PageByte;
    var m' := MapPage(m, root, virt, frame, flags, size, mode).0;
    MapPageCorrect(m, root, virt, frame, flags, size, mode);
    PageByteFits(frame, LeafFlags(flags, size), size, w);
    LeafFlagsKeepRights(flags, size);
    RightsExactly(m', root, w, mode);
    SamePageSharesTables(virt, w, size, mode);
    MapPageAdds(m, root, virt, frame, flags, size, mode, w);
  }

  /** No call of `map_page`, failed or not, changes the rights of a page that was there. */
  lemma MappingKeepsOtherRights(m: Memory, root: PhysAddr, virt: VirtAddr, frame: PhysAddr, flags: PageFlags,
                                size: PageSize,
                                mode: PagingMode, w: VirtAddr)
    requires IsTree(m, root, mode.Levels()) && IsCanonical(virt, mode)
    requires EffectiveRights(m.tables, root, Path(w, mode), mode.Levels(), ALL).Some?
    ensures var m' := MapPage(m, root, virt, frame, flags, size, mode).0;
            EffectiveRights(m'.tables, root, Path(w, mode), mode.Levels(), ALL) ==
            EffectiveRights(m.tables, root, Path(w, mode), mode.Levels(), ALL)
  {
    hide IsCanonical, IsTree, MapPage, EffectiveRights, LinksCarryUser, MissingTables, TableIndex, SharesTables,
         PresentStay, Contains;
    SamePageSharesTables(virt, virt, size, mode);
    MapPageAdds(m, root, virt, frame, flags, size, mode, virt);
    RightsStay(m, MapPage(m, root, virt, frame, flags, size, mode).0, root, Path(w, mode), mode.Levels(), ALL);
  }

  // ----- a page that was asked to be open and is not -------------------------------------

  /** Where nothing is mapped, and frames are left for all tables, a small page can be mapped. */
  lemma SmallPageFits(m: Memory, root: PhysAddr, virt: VirtAddr, frame: PhysAddr, flags: PageFlags, mode: PagingMode)
    requires IsTree(m, root, mode.Levels()) && IsCanonical(virt, mode)
    requires HasBit(flags, 1) ==> HasBit(flags, 63)
    requires HasBit(flags, 2) ==> virt < 0x8000_0000_0000_0000
    requires virt % 0x1000 == 0 && frame % 0x1000 == 0
    requires Translate(m, root, virt, mode) == Err(NotMapped) && |m.pool| >= mode.Levels() - 1
    ensures MapPage(m, root, virt, frame, flags, Small, mode).1 == Ok(())
  {
    hide IsCanonical, IsKernelHalf, Contains, HasBit, MissingTables, TableIndex, MapPage, Walk, CellsOk, PoolOk,
         HangsFromParent;
    MapPageDecides(m, root, virt, frame, flags, Small, mode);
    var path := Path(virt, mode);
    forall x: PhysAddr | x in m.place
      ensures !OnPath(m, x, path, 0)
    {
      assert |path[..mode.Levels() - 0]| == mode.Levels();
    }
  }

  /** In an empty space nothing is mapped and every table is missing. */
  lemma EmptySpaceIsEmpty(root: PhysAddr, pool: seq<PhysAddr>, virt: VirtAddr, mode: PagingMode)
    requires PoolOk(EmptySpace(root, pool))
    ensures var m := EmptySpace(root, pool);
            && IsTree(m, root, mode.Levels()) && Translate(m, root, virt, mode) == Err(NotMapped)
            && MissingTables(m, root, Path(virt, mode), mode.Levels(), 1) == mode.Levels() - 1
  {
    hide TableIndex;
    EmptyIsAbsent();
  }

  /** The first two small pages of the address space. */
  lemma FirstTwoPages(mode: PagingMode)
    ensures IsCanonical(0, mode) && IsCanonical(0x1000, mode)
    ensures !SamePage(0, 0x1000, 1) && SamePage(0, 0x1000, 2) && SamePage(0x1000, 0x1000, 1)
    ensures !HasBit(0, 1) && !HasBit(0, 2) && !HasBit(USER, 1) && Contains(USER, USER) && !Contains(0, USER)
  {
    CanonicalIsTwoHalves(0, mode);
    CanonicalIsTwoHalves(0x1000, mode);
    hide IsCanonical;
  }

  /**
    Two calls on an empty space, both with success: page 0 for the kernel, and page 1 for users.
    The tables were linked by the first call, without USER, so users do not get at page 1.
    */
  lemma KernelTablesCloseNeighbour(root: PhysAddr, pool: seq<PhysAddr>, mode: PagingMode, frame: PhysAddr,
                                   frame': PhysAddr)
    requires PoolOk(EmptySpace(root, pool)) && |pool| >= 2 * (mode.Levels() - 1)
    requires frame % 0x1000 == 0 && frame' % 0x1000 == 0
    ensures var m := EmptySpace(root, pool);
            var (m1, r1) := MapPage(m, root, 0, frame, 0, Small, mode);
            var (m2, r2) := MapPage(m1, root, 0x1000, frame', USER, Small, mode);
            var rights := EffectiveRights(m2.tables, root, Path(0x1000, mode), mode.Levels(), ALL);
            r1.Ok? && r2.Ok? && rights.Some? && !rights.value.user
  {
    hide IsTree, IsCanonical, IsKernelHalf, Contains, MissingTables, TableIndex, MapPage, Translate,
         EffectiveRights, LinksCarryUser,
         PresentStay, SharesTables, SamePage, PoolOk, EmptySpace, HasBit, PageByte;
    FirstTwoPages(mode);
    var m := EmptySpace(root, pool);
    EmptySpacePool(root, pool);
    EmptySpaceIsEmpty(root, pool, 0, mode);
    EmptySpaceIsEmpty(root, pool, 0x1000, mode);
    SmallPageFits(m, root, 0, frame, 0, mode);
    var m1 := MapPage(m, root, 0, frame, 0, Small, mode).0;
    MapPageCorrect(m, root, 0, frame, 0, Small, mode);
    SamePageSharesTables(0, 0x1000, Small, mode);
    MapPageAdds(m, root, 0, frame, 0, Small, mode, 0x1000);
    SmallPageFits(m1, root, 0x1000, frame', USER, mode);
    MappedPageIsOpenExactly(m1, root, 0x1000, frame', USER, Small, mode, 0x1000);
  }

  lemma EmptySpacePool(root: PhysAddr, pool: seq<PhysAddr>)
    ensures EmptySpace(root, pool).pool == pool
  {
  }
}
