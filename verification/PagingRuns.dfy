/**
  Page tables over whole runs of calls: they refine a flat map from addresses to pages, whatever
  succeeds and whatever fails, while frames for tables come and go.
  */
module PagingRuns {
  import opened Wrappers
  import opened Addr
  import opened Paging
  import opened PagingTree
  import opened PagingTheorems
  import opened PagingRights

  // ----- the flat map --------------------------------------------------------------------

  /** A call, or the kernel changing which frames it has for tables. */
  datatype Op =
    | Map(virt: VirtAddr, frame: PhysAddr, flags: PageFlags, size: PageSize)
    | Unmap(virt: VirtAddr)
    | Supply(frames: seq<PhysAddr>)

  /** What a successful call did. */
  datatype Event =
    | Mapped(virt: VirtAddr, frame: PhysAddr, flags: PageFlags, size: PageSize)
    | Unmapped(virt: VirtAddr, size: PageSize)
  {
    predicate Covers(w: VirtAddr) { SamePage(virt, w, size.TerminalLevel()) }
  }

  /** The flat map: an address is where the last event that covers its page put it. */
  function FlatAnswer(history: seq<Event>, w: VirtAddr): Result<Translation, PageError> {
    if history == [] then Err(NotMapped)
    else
      var last := history[|history| - 1];
      if !last.Covers(w) then FlatAnswer(history[..|history| - 1], w)
      else if last.Unmapped? then Err(NotMapped)
      else PageByte(last.frame, last.flags, last.size, w)
  }

  function Step(m: Memory, root: PhysAddr, history: seq<Event>, op: Op, mode: PagingMode): (Memory, seq<Event>) {
    match op
    case Map(virt, frame, flags, size) =>
      var (m', r) := MapPage(m, root, virt, frame, flags, size, mode);
      (m', if r.Ok? then history + [Mapped(virt, frame, LeafFlags(flags, size), size)] else history)
    case Unmap(virt) =>
      var (m', r) := UnmapPage(m, root, virt, mode);
      (m', if r.Ok? then history + [Unmapped(virt, r.value.1)] else history)
    case Supply(frames) => (m.(pool := frames), history)
  }

  /** Calls are about canonical addresses, and frames supplied for tables are aligned, distinct and no tables. */
  predicate IsAllowed(m: Memory, op: Op, mode: PagingMode) {
    match op
    case Map(virt, _, _, _) => IsCanonical(virt, mode)
    case Unmap(virt) => IsCanonical(virt, mode)
    case Supply(frames) => PoolOk(m.(pool := frames))
  }

  function Run(m: Memory, root: PhysAddr, history: seq<Event>, ops: seq<Op>, mode: PagingMode): (Memory, seq<Event>) {
    if ops == [] then (m, history)
    else
      var (m1, history1) := Run(m, root, history, ops[..|ops| - 1], mode);
      Step(m1, root, history1, ops[|ops| - 1], mode)
  }

  predicate IsAllowedRun(m: Memory, root: PhysAddr, ops: seq<Op>, mode: PagingMode) {
    ops == [] ||
    (IsAllowedRun(m, root, ops[..|ops| - 1], mode) &&
     IsAllowed(Run(m, root, [], ops[..|ops| - 1], mode).0, ops[|ops| - 1], mode))
  }

  ghost predicate Refines(m: Memory, root: PhysAddr, history: seq<Event>, mode: PagingMode) {
    forall w: VirtAddr | IsCanonical(w, mode) :: Translate(m, root, w, mode) == FlatAnswer(history, w)
  }

  lemma FlatAnswerAppend(history: seq<Event>, last: Event, w: VirtAddr)
    ensures FlatAnswer(history + [last], w) ==
            if !last.Covers(w) then FlatAnswer(history, w)
            else if last.Unmapped? then Err(NotMapped)
            else PageByte(last.frame, last.flags, last.size, w)
  {
    hide SamePage, PageByte;
    assert (history + [last])[..|history|] == history;
  }

  /** New frames for tables change no table. */
  lemma SupplyKeepsTree(m: Memory, root: PhysAddr, levels: nat, frames: seq<PhysAddr>)
    requires IsTree(m, root, levels) && PoolOk(m.(pool := frames))
    ensures IsTree(m.(pool := frames), root, levels)
  {
    var m' := m.(pool := frames);
    SupplyKeepsCells(m, levels, m');
    SupplyKeepsPlaces(m, root, levels, m');
    hide CellsOk, PlacesOk, PoolOk;
  }

  lemma SupplyKeepsCells(m: Memory, levels: nat, m': Memory)
    requires CellsOk(m, levels) && m' == m.(pool := m'.pool)
    ensures CellsOk(m', levels)
  {
    hide Contains, Entry.IsPresent, Entry.IsLeaf, IsLink, LeafOk;
    forall t: PhysAddr, i: nat | t in m'.tables && i in m'.tables[t]
      ensures t in m'.place && |m'.place[t].prefix| < levels
      ensures CellOk(m', t, i, m'.tables[t][i], levels - |m'.place[t].prefix|)
    {
      assert CellOk(m, t, i, m.tables[t][i], levels - |m.place[t].prefix|);
    }
  }

  lemma SupplyKeepsPlaces(m: Memory, root: PhysAddr, levels: nat, m': Memory)
    requires PlacesOk(m, root, levels) && m' == m.(pool := m'.pool)
    ensures PlacesOk(m', root, levels)
  {
    hide Contains, Entry.IsPresent, Entry.IsLeaf, IsLink;
    forall t: PhysAddr | t in m'.place && t != root
      ensures HangsFromParent(m', t, levels)
    {
      assert HangsFromParent(m, t, levels);
    }
  }

  lemma StepRefines(m: Memory, root: PhysAddr, history: seq<Event>, op: Op, mode: PagingMode)
    requires IsTree(m, root, mode.Levels()) && IsAllowed(m, op, mode) && Refines(m, root, history, mode)
    ensures var (m', history') := Step(m, root, history, op, mode);
            IsTree(m', root, mode.Levels()) && Refines(m', root, history', mode)
  {
    hide IsCanonical, IsTree, MapPage, UnmapPage, LeafFlags, PageByte, SamePage, FlatAnswer, PoolOk;
    match op {
      case Map(virt, frame, flags, size) =>
        hide Translate;
        MapPageCorrect(m, root, virt, frame, flags, size, mode);
        var (m', history') := Step(m, root, history, op, mode);
        if MapPage(m, root, virt, frame, flags, size, mode).1.Ok? {
          forall w: VirtAddr | IsCanonical(w, mode)
            ensures Translate(m', root, w, mode) == FlatAnswer(history', w)
          {
            FlatAnswerAppend(history, Mapped(virt, frame, LeafFlags(flags, size), size), w);
          }
        }
      case Unmap(virt) =>
        hide Translate;
        UnmapPageCorrect(m, root, virt, mode);
        var r := UnmapPage(m, root, virt, mode).1;
        if r.Ok? {
          forall w: VirtAddr {
            FlatAnswerAppend(history, Unmapped(virt, r.value.1), w);
          }
        }
      case Supply(frames) =>
        SupplyKeepsTree(m, root, mode.Levels(), frames);
        hide Walk;
    }
  }

  /**
    After any run of mapping and unmapping from an empty space, whatever succeeded and whatever
    failed on the way, and however frames for tables ran out and came back, the tables are a tree
    and every canonical address translates as the flat map says.
    */
  lemma {:induction false} RunRefinesFlatMap(root: PhysAddr, pool: seq<PhysAddr>, ops: seq<Op>, mode: PagingMode)
    requires PoolOk(EmptySpace(root, pool)) && IsAllowedRun(EmptySpace(root, pool), root, ops, mode)
    ensures var (m, history) := Run(EmptySpace(root, pool), root, [], ops, mode);
            IsTree(m, root, mode.Levels()) && Refines(m, root, history, mode)
    decreases |ops|
  {
    var start := EmptySpace(root, pool);
    hide IsCanonical, Step, IsAllowed, IsTree, EmptySpace, PoolOk, Translate;
    if ops == [] {
      forall w: VirtAddr | IsCanonical(w, mode)
        ensures Translate(start, root, w, mode) == Err(NotMapped)
      {
        EmptySpaceIsEmpty(root, pool, w, mode);
      }
      EmptySpaceIsEmpty(root, pool, 0, mode);
    } else {
      hide Refines;
      var rest := ops[..|ops| - 1];
      RunRefinesFlatMap(root, pool, rest, mode);
      var (m1, history) := Run(start, root, [], rest, mode);
      StepRefines(m1, root, history, ops[|ops| - 1], mode);
    }
  }

  // ----- running out of frames -----------------------------------------------------------

  /** A descent that runs out of frames has used them all, on tables that are not in the way of another try. */
  lemma {:induction false} OutOfFramesLeaves(m: Memory, root: PhysAddr, levels: nat, t: PhysAddr, path: seq<nat>,
                                             level: nat, terminal: nat, user: bool, leaf: Entry)
    requires IsTree(m, root, levels) && IsPath(path, levels) && OnPath(m, t, path, level)
    requires 1 <= terminal <= 3 && terminal <= level
    requires leaf.IsPresent() && LeafOk(leaf, terminal, path[..levels - terminal + 1])
    requires MapFrom(m, t, path, level, terminal, user, Ok(leaf)).1 == Err(OutOfFrames)
    ensures var m' := MapFrom(m, t, path, level, terminal, user, Ok(leaf)).0;
            && m'.pool == [] && !TableInTheWay(m', path, terminal)
            && MissingTables(m', t, path, level, terminal) == MissingTables(m, t, path, level, terminal) - |m.pool|
    decreases level
  {
    hide Contains, Entry.IsPresent, Entry.IsLeaf, IsTree, LinkNewTable, LeafOk, TableInTheWay, PresentStay,
         LeafInTheWay, SharesTables, LinksCarryUser;
    var k := levels - level;
    LinkStaysOnPath(m, root, levels, t, path, level);
    assert path[..k + 1] == path[..k] + [path[k]];
    MapFromDecides(m, root, levels, t, path, level, terminal, user, leaf);
    var m' := MapFrom(m, t, path, level, terminal, user, Ok(leaf)).0;
    var e := ReadEntry(m.tables, t, path[k]).value;
    if IsLink(e, level) {
      PathSharesItself(path, levels, terminal);
      OutOfFramesLeaves(m, root, levels, e.frame, path, level - 1, terminal, user, leaf);
      MapFromAdds(m, root, levels, e.frame, path, level - 1, terminal, user, leaf, path);
      StaysThere(m, m', t, path[k]);
    } else if m.pool == [] {
      NoFrames(m, t, path[k], user);
    } else {
      PathSharesItself(path, levels, terminal);
      LinkStep(m, root, levels, t, path, level, user);
      LinkPutsNothingInTheWay(m, root, levels, t, path, level, terminal, user);
      FreshLink(m, root, levels, t, path, level, terminal, user);
      var m1 := LinkNewTable(m, t, path[k], user).0;
      OutOfFramesLeaves(m1, root, levels, m.pool[0], path, level - 1, terminal, user, leaf);
      MapFromAdds(m1, root, levels, m.pool[0], path, level - 1, terminal, user, leaf, path);
      StaysThere(m1, m', t, path[k]);
    }
  }

  lemma PathSharesItself(path: seq<nat>, levels: nat, terminal: nat)
    requires |path| == levels && 1 <= terminal <= levels
    ensures SharesTables(path, path, levels, terminal)
  {
  }

  /**
    A request that ran out of frames succeeds when it is made again, over the tables it left
    behind, exactly when there are then frames for the tables that were still missing.
    */
  lemma RetrySucceedsExactly(m: Memory, root: PhysAddr, virt: VirtAddr, frame: PhysAddr, flags: PageFlags,
                             size: PageSize, mode: PagingMode, frames: seq<PhysAddr>)
    requires IsTree(m, root, mode.Levels()) && IsCanonical(virt, mode)
    requires MapPage(m, root, virt, frame, flags, size, mode).1 == Err(OutOfFrames)
    requires PoolOk(MapPage(m, root, virt, frame, flags, size, mode).0.(pool := frames))
    ensures var m' := MapPage(m, root, virt, frame, flags, size, mode).0.(pool := frames);
            var missing := MissingTables(m, root, Path(virt, mode), mode.Levels(), size.TerminalLevel());
            && missing > |m.pool|
            && MapPage(m', root, virt, frame, flags, size, mode).1 ==
               if |frames| >= missing - |m.pool| then Ok(()) else Err(OutOfFrames)
  {
    hide IsCanonical, IsTree, IsKernelHalf, Contains, LeafFlags, EntrySpan, MapFrom, Walk, LeafOk, TableInTheWay,
         MissingTables, PoolOk, TableIndex;
    var levels, terminal, path := mode.Levels(), size.TerminalLevel(), Path(virt, mode);
    var m1 := MapPage(m, root, virt, frame, flags, size, mode).0;
    var m' := m1.(pool := frames);
    MapPageDecides(m, root, virt, frame, flags, size, mode);
    MapPageCorrect(m, root, virt, frame, flags, size, mode);
    SupplyKeepsTree(m1, root, levels, frames);
    RequestedLeafIsSound(virt, frame, flags, size, mode);
    RootOnPath(m, root, levels, path);
    assert IsPath(path, levels);
    var leaf := Entry(frame, LeafFlags(flags, size));
    OutOfFramesLeaves(m, root, levels, root, path, levels, terminal, Contains(flags, USER), leaf);
    MapFromCorrect(m, root, levels, root, path, levels, terminal, Contains(flags, USER), leaf);
    MapPageDecides(m', root, virt, frame, flags, size, mode);
    SupplyChangesNothingOnTheWay(m1, root, path, levels, terminal, frames);
  }

  lemma SupplyChangesNothingOnTheWay(m: Memory, root: PhysAddr, path: seq<nat>, levels: nat, terminal: nat,
                                     frames: seq<PhysAddr>)
    requires 1 <= terminal <= levels == |path|
    ensures var m' := m.(pool := frames);
            && TableInTheWay(m', path, terminal) == TableInTheWay(m, path, terminal)
            && LeafInTheWay(m', root, path, terminal) == LeafInTheWay(m, root, path, terminal)
            && MissingTables(m', root, path, levels, terminal) == MissingTables(m, root, path, levels, terminal)
  {
    hide Contains, Entry.IsPresent, Entry.IsLeaf, Walk;
    MissingDependsOnTables(m, m.(pool := frames), root, path, levels, terminal);
    hide MissingTables;
    var m' := m.(pool := frames);
    var below := terminal - 1;
    assert forall x: PhysAddr :: OnPath(m', x, path, below) <==> OnPath(m, x, path, below);
  }

  lemma {:induction false} MissingDependsOnTables(m: Memory, m': Memory, t: PhysAddr, path: seq<nat>, level: nat,
                                                  terminal: nat)
    requires 1 <= terminal <= level <= |path| && m'.tables == m.tables
    ensures MissingTables(m', t, path, level, terminal) == MissingTables(m, t, path, level, terminal)
    decreases level
  {
    hide Contains, Entry.IsPresent, Entry.IsLeaf;
    var e := ReadEntry(m.tables, t, path[|path| - level]);
    if level > terminal && e.Some? && IsLink(e.value, level) {
      MissingDependsOnTables(m, m', e.value.frame, path, level - 1, terminal);
    }
  }

  // ----- rights over runs ----------------------------------------------------------------

  /** Putting one cell that is no link in the place of another changes no link on any walk. */
  lemma {:induction false} PlainWriteKeepsUserLinks(m: Memory, root: PhysAddr, levels: nat, t0: PhysAddr, i0: nat,
                                                    e: Entry, m': Memory, t: PhysAddr, path: seq<nat>, level: nat)
    requires IsTree(m, root, levels) && PlainWrite(m, levels, t0, i0, e, m')
    requires IsPath(path, levels) && OnPath(m, t, path, level)
    ensures LinksCarryUser(m'.tables, t, path, level) == LinksCarryUser(m.tables, t, path, level)
    decreases level
  {
    hide Contains, Entry.IsPresent, Entry.IsLeaf, IsLink, IsTree, LeafOk, PlainWrite, ReadEntry;
    if level > 0 {
      LinkStaysOnPath(m, root, levels, t, path, level);
      var i := path[levels - level];
      OneCellWritten(m, levels, t0, i0, e, m', t, i);
      if t == t0 && i == i0 {
        NoLinkWritten(m, levels, t0, i0, e, m', path, level);
      } else {
        var old_ := ReadEntry(m.tables, t, i);
        if IsLink(old_.value, level) {
          PlainWriteKeepsUserLinks(m, root, levels, t0, i0, e, m', old_.value.frame, path, level - 1);
        }
      }
    }
  }

  lemma NoLinkWritten(m: Memory, levels: nat, t0: PhysAddr, i0: nat, e: Entry, m': Memory, path: seq<nat>, level: nat)
    requires PlainWrite(m, levels, t0, i0, e, m') && |path| == levels && OnPath(m, t0, path, level)
    ensures !IsLink(e, level) && !IsLink(ReadEntry(m.tables, t0, i0).value, level)
  {
    hide Contains, Entry.IsPresent, Entry.IsLeaf, IsLink, CellOk;
    assert |m.place[t0].prefix| == levels - level;
  }

  lemma OneCellWritten(m: Memory, levels: nat, t0: PhysAddr, i0: nat, e: Entry, m': Memory, t: PhysAddr, i: nat)
    requires PlainWrite(m, levels, t0, i0, e, m')
    ensures ReadEntry(m'.tables, t, i) == if t == t0 && i == i0 then Some(e) else ReadEntry(m.tables, t, i)
  {
    hide Contains, Entry.IsPresent, Entry.IsLeaf, CellOk;
  }

  /** `unmap_page` changes the rights of no address outside the page it removes. */
  lemma UnmappingKeepsOtherRights(m: Memory, root: PhysAddr, virt: VirtAddr, mode: PagingMode, w: VirtAddr)
    requires IsTree(m, root, mode.Levels()) && IsCanonical(virt, mode) && IsCanonical(w, mode)
    requires var r := UnmapPage(m, root, virt, mode).1; r.Ok? ==> !SamePage(virt, w, r.value.1.TerminalLevel())
    ensures var m' := UnmapPage(m, root, virt, mode).0;
            EffectiveRights(m'.tables, root, Path(w, mode), mode.Levels(), ALL) ==
            EffectiveRights(m.tables, root, Path(w, mode), mode.Levels(), ALL)
  {
    hide IsCanonical, IsTree, Contains, Entry.IsLeaf, EntrySpan, SamePage, PageByte, LeafOk, EffectiveRights,
         LinksCarryUser, TableIndex, PlainWrite;
    var m' := UnmapPage(m, root, virt, mode).0;
    var levels, path := mode.Levels(), Path(virt, mode);
    UnmapPageCorrect(m, root, virt, mode);
    assert IsPath(path, levels) && IsPath(Path(w, mode), levels);
    RightsExactly(m, root, w, mode);
    RightsExactly(m', root, w, mode);
    if Walk(m.tables, root, path, levels).Ok? {
      var leaf := Walk(m.tables, root, path, levels).value;
      ClearIsPlainWrite(m, root, levels, path, leaf);
      RootOnPath(m, root, levels, Path(w, mode));
      PlainWriteKeepsUserLinks(m, root, levels, leaf.table, leaf.index, EMPTY, m', root, Path(w, mode), levels);
    }
  }

  function RightsAt(m: Memory, root: PhysAddr, w: VirtAddr, mode: PagingMode): Option<Rights> {
    EffectiveRights(m.tables, root, Path(w, mode), mode.Levels(), ALL)
  }

  lemma StepKeepsRights(m: Memory, root: PhysAddr, history: seq<Event>, op: Op, mode: PagingMode, w: VirtAddr)
    requires IsTree(m, root, mode.Levels()) && IsAllowed(m, op, mode) && IsCanonical(w, mode)
    requires RightsAt(m, root, w, mode).Some?
    requires var history' := Step(m, root, history, op, mode).1;
             |history'| > |history| && history'[|history|].Unmapped? ==> !history'[|history|].Covers(w)
    ensures var (m', history') := Step(m, root, history, op, mode);
            && IsTree(m', root, mode.Levels()) && RightsAt(m', root, w, mode) == RightsAt(m, root, w, mode)
            && history <= history'
  {
    hide IsCanonical, IsTree, MapPage, UnmapPage, LeafFlags, SamePage, PoolOk, EffectiveRights, TableIndex;
    match op {
      case Map(virt, frame, flags, size) =>
        MapPageCorrect(m, root, virt, frame, flags, size, mode);
        MappingKeepsOtherRights(m, root, virt, frame, flags, size, mode, w);
      case Unmap(virt) =>
        UnmapPageCorrect(m, root, virt, mode);
        UnmappingKeepsOtherRights(m, root, virt, mode, w);
      case Supply(frames) =>
        SupplyKeepsTree(m, root, mode.Levels(), frames);
    }
  }

  /**
    The rights of a mapped page last: over any run from any tree they stay what they are, to write,
    to execute and for users, until a call unmaps the page.
    */
  lemma {:induction false} RightsLastUntilUnmapped(m: Memory, root: PhysAddr, ops: seq<Op>, mode: PagingMode,
                                                   w: VirtAddr)
    requires IsTree(m, root, mode.Levels()) && IsCanonical(w, mode) && IsAllowedRun(m, root, ops, mode)
    requires RightsAt(m, root, w, mode).Some?
    requires forall e | e in Run(m, root, [], ops, mode).1 && e.Unmapped? :: !e.Covers(w)
    ensures var m' := Run(m, root, [], ops, mode).0;
            IsTree(m', root, mode.Levels()) && RightsAt(m', root, w, mode) == RightsAt(m, root, w, mode)
    decreases |ops|
  {
    if ops != [] {
      var rest, op := ops[..|ops| - 1], ops[|ops| - 1];
      var (m1, history) := Run(m, root, [], rest, mode);
      HistoryGrows(m1, root, history, op, mode);
      var history' := Step(m1, root, history, op, mode).1;
      assert forall e | e in history :: e in history';
      hide IsCanonical, IsTree, Step, IsAllowed, RightsAt, Event.Covers;
      RightsLastUntilUnmapped(m, root, rest, mode, w);
      if |history'| > |history| { assert history'[|history|] in history'; }
      StepKeepsRights(m1, root, history, op, mode, w);
    }
  }

  lemma HistoryGrows(m: Memory, root: PhysAddr, history: seq<Event>, op: Op, mode: PagingMode)
    ensures history <= Step(m, root, history, op, mode).1
  {
    hide MapPage, UnmapPage, LeafFlags;
  }
}
