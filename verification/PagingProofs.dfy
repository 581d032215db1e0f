/**
  Every reachable memory of page tables is a tree, and single writes to it change exactly
  the translations they should.
  */
module PagingTree {
  import opened Wrappers
  import opened Addr
  import opened Paging

  // ----- the invariant -------------------------------------------------------------------

  /** A present entry of a table at `level` links another table. */
  predicate IsLink(entry: Entry, level: nat) {
    entry.IsPresent() && entry.IsLeaf(level) == Ok(false)
  }

  /** No page is both writable and executable. */
  predicate WriteXorExecute(flags: PageFlags) {
    !(Contains(flags, WRITABLE) && !Contains(flags, NO_EXECUTE))
  }

  /** What a leaf at `level`, reached by the indices `path`, may look like. */
  predicate LeafOk(entry: Entry, level: nat, path: seq<nat>)
    requires path != []
  {
    && entry.IsLeaf(level) == Ok(true)
    && 1 <= level <= 3 && entry.frame % EntrySpan(level) == 0
    && WriteXorExecute(entry.flags)
    && (Contains(entry.flags, USER) ==> path[0] < 256)
  }

  /** What an entry that links a table may look like: it never restricts what is below it. */
  predicate LinkOk(m: Memory, table: PhysAddr, index: nat, entry: Entry, level: nat)
    requires table in m.place
  {
    && level >= 2 && IsLink(entry, level)
    && Contains(entry.flags, WRITABLE) && !Contains(entry.flags, NO_EXECUTE)
    && entry.frame in m.place
    && m.place[entry.frame] == Place(m.place[table].prefix + [index], table, index)
  }

  /** A present cell of a table at `level` is a sound leaf or the one link to a child table. */
  predicate CellOk(m: Memory, table: PhysAddr, index: nat, entry: Entry, level: nat)
    requires table in m.place
  {
    && index < 512
    && (entry.IsPresent() ==>
          if IsLink(entry, level) then LinkOk(m, table, index, entry, level)
          else LeafOk(entry, level, m.place[table].prefix + [index]))
  }

  ghost predicate CellsOk(m: Memory, levels: nat) {
    forall t: PhysAddr, i: nat | t in m.tables && i in m.tables[t] ::
      t in m.place && |m.place[t].prefix| < levels &&
      CellOk(m, t, i, m.tables[t][i], levels - |m.place[t].prefix|)
  }

  /** A table below the root hangs from exactly the cell its place names. */
  predicate HangsFromParent(m: Memory, t: PhysAddr, levels: nat)
    requires t in m.place
  {
    var Place(prefix, p, slot) := m.place[t];
    && p in m.place && p in m.tables && |m.place[p].prefix| < levels
    && prefix == m.place[p].prefix + [slot]
    && slot in m.tables[p] && IsLink(m.tables[p][slot], levels - |m.place[p].prefix|) && m.tables[p][slot].frame == t
  }

  ghost predicate PlacesOk(m: Memory, root: PhysAddr, levels: nat) {
    && m.tables.Keys == m.place.Keys
    && root in m.place && m.place[root].prefix == []
    && (forall t: PhysAddr | t in m.place :: |m.place[t].prefix| < levels)
    && (forall t: PhysAddr {:trigger HangsFromParent(m, t, levels)} | t in m.place && t != root ::
          HangsFromParent(m, t, levels))
  }

  /** Frames not handed out yet: aligned, distinct, and not tables. */
  predicate PoolOk(m: Memory) {
    && (forall i | 0 <= i < |m.pool| :: m.pool[i] % 0x1000 == 0 && m.pool[i] !in m.tables)
    && (forall i, j | 0 <= i < j < |m.pool| :: m.pool[i] != m.pool[j])
  }

  /** The tables form a tree below `root`, with sound leaves. */
  ghost predicate IsTree(m: Memory, root: PhysAddr, levels: nat) {
    CellsOk(m, levels) && PlacesOk(m, root, levels) && PoolOk(m)
  }

  /** Indices that a walk can follow: one per level, each within a table. */
  predicate IsPath(path: seq<nat>, levels: nat) {
    |path| == levels && 4 <= levels <= 5 && forall k | 0 <= k < levels :: path[k] < 512
  }

  /** `t` is the table that a walk along `path` visits at `level`. */
  predicate OnPath(m: Memory, t: PhysAddr, path: seq<nat>, level: nat) {
    level <= |path| && t in m.place && m.place[t].prefix == path[..|path| - level]
  }

  // ----- walks ---------------------------------------------------------------------------

  /** A link followed along `path` leads to the next table on that path. */
  lemma LinkStaysOnPath(m: Memory, root: PhysAddr, levels: nat, t: PhysAddr, path: seq<nat>, level: nat)
    requires IsTree(m, root, levels) && IsPath(path, levels) && 1 <= level && OnPath(m, t, path, level)
    ensures ReadEntry(m.tables, t, path[levels - level]).Some?
    ensures var e := ReadEntry(m.tables, t, path[levels - level]).value;
            && (e.IsPresent() ==> path[levels - level] in m.tables[t])
            && (e.IsPresent() ==> CellOk(m, t, path[levels - level], e, level))
            && (IsLink(e, level) ==> OnPath(m, e.frame, path, level - 1) && level >= 2)
            && (e.IsPresent() && !IsLink(e, level) ==> e.IsLeaf(level) == Ok(true))
  {
    hide Contains, Entry.IsPresent, Entry.IsLeaf, HangsFromParent, PoolOk;
    var k := levels - level;
    assert path[..k + 1] == path[..k] + [path[k]];
    EmptyIsAbsent();
    var e := ReadEntry(m.tables, t, path[k]).value;
    if e.IsPresent() {
      assert path[k] in m.tables[t];
      assert CellOk(m, t, path[k], e, level);
    }
  }

  lemma EmptyIsAbsent()
    ensures !EMPTY.IsPresent()
  {
  }

  /** The parent of a table on the path is on it too, one level up, and links the table. */
  lemma ParentOnPath(m: Memory, root: PhysAddr, levels: nat, t: PhysAddr, path: seq<nat>, level: nat)
    requires PlacesOk(m, root, levels) && IsPath(path, levels) && OnPath(m, t, path, level)
    requires t != root
    ensures var p := m.place[t].parent;
            && level < levels && OnPath(m, p, path, level + 1)
            && var e := ReadEntry(m.tables, p, path[levels - level - 1]);
               e.Some? && IsLink(e.value, level + 1) && e.value.frame == t
  {
    hide Contains, Entry.IsPresent, Entry.IsLeaf, IsLink;
    assert HangsFromParent(m, t, levels);
    var p, k := m.place[t].parent, levels - level;
    assert path[..k][..k - 1] == path[..k - 1];
    assert (m.place[p].prefix + [m.place[t].slot])[..k - 1] == m.place[p].prefix;
  }

  /** The root's walk arrives at every table that lies on the path. */
  lemma {:induction false} WalkArrives(m: Memory, root: PhysAddr, levels: nat, t: PhysAddr, path: seq<nat>, level: nat)
    requires PlacesOk(m, root, levels) && IsPath(path, levels) && OnPath(m, t, path, level) && 1 <= level
    ensures Walk(m.tables, root, path, levels) == Walk(m.tables, t, path, level)
    decreases levels - level
  {
    hide Contains, Entry.IsPresent, Entry.IsLeaf, HangsFromParent;
    if t == root {
      assert |path[..levels - level]| == levels - level;
    } else {
      ParentOnPath(m, root, levels, t, path, level);
      WalkArrives(m, root, levels, m.place[t].parent, path, level + 1);
    }
  }

  /** A walk that does not read the one changed cell gives what it gave before. */
  lemma {:induction false} WalkUnaffected(m: Memory, m': Memory, root: PhysAddr, levels: nat, t0: PhysAddr, i0: nat,
                                          t: PhysAddr, path: seq<nat>, level: nat)
    requires IsTree(m, root, levels) && IsPath(path, levels) && OnPath(m, t, path, level)
    requires t0 in m.place && !(m.place[t0].prefix + [i0] <= path)
    requires AgreesExcept(m, m', t0, i0)
    ensures Walk(m'.tables, t, path, level) == Walk(m.tables, t, path, level)
    decreases level
  {
    hide Contains, Entry.IsPresent, Entry.IsLeaf, IsTree;
    if level > 0 {
      LinkStaysOnPath(m, root, levels, t, path, level);
      var k := levels - level;
      assert path[..k] + [path[k]] == path[..k + 1];
      assert ReadEntry(m'.tables, t, path[k]) == ReadEntry(m.tables, t, path[k]);
      var e := ReadEntry(m.tables, t, path[k]).value;
      if IsLink(e, level) {
        WalkUnaffected(m, m', root, levels, t0, i0, e.frame, path, level - 1);
      }
    }
  }

  /** Every table of `m` is in `m'`, and reads the same there except in cell (`t0`, `i0`). */
  ghost predicate AgreesExcept(m: Memory, m': Memory, t0: PhysAddr, i0: nat) {
    forall t: PhysAddr, i: nat | t in m.tables && !(t == t0 && i == i0) ::
      ReadEntry(m'.tables, t, i) == ReadEntry(m.tables, t, i)
  }

  // ----- writes --------------------------------------------------------------------------

  /** The level of a table, counted from the leaves. */
  function LevelOf(m: Memory, t: PhysAddr, levels: nat): nat
    requires t in m.place && |m.place[t].prefix| < levels
  {
    levels - |m.place[t].prefix|
  }

  /** The premises of writing `e`, which links nothing, over a cell that links nothing. */
  ghost predicate PlainWrite(m: Memory, levels: nat, t: PhysAddr, i: nat, e: Entry, m': Memory) {
    && t in m.place && |m.place[t].prefix| < levels && t in m.tables && i < 512
    && !IsLink(ReadEntry(m.tables, t, i).value, LevelOf(m, t, levels))
    && !IsLink(e, LevelOf(m, t, levels)) && CellOk(m, t, i, e, LevelOf(m, t, levels))
    && m' == m.(tables := m'.tables) && m'.tables == SetCell(m.tables, t, i, e)
  }

  lemma PlainWriteKeepsPlaces(m: Memory, root: PhysAddr, levels: nat, t: PhysAddr, i: nat, e: Entry, m': Memory)
    requires PlacesOk(m, root, levels) && PlainWrite(m, levels, t, i, e, m')
    ensures PlacesOk(m', root, levels)
  {
    hide Contains, Entry.IsPresent, Entry.IsLeaf, IsLink, CellOk, ReadEntry, HangsFromParent;
    forall x: PhysAddr | x in m'.place && x != root
      ensures HangsFromParent(m', x, levels)
    {
      PlainWriteKeepsParent(m, levels, t, i, e, m', x);
    }
  }

  lemma PlainWriteKeepsParent(m: Memory, levels: nat, t: PhysAddr, i: nat, e: Entry, m': Memory, x: PhysAddr)
    requires PlainWrite(m, levels, t, i, e, m') && x in m.place && HangsFromParent(m, x, levels)
    ensures x in m'.place && HangsFromParent(m', x, levels)
  {
    hide Contains, Entry.IsPresent, Entry.IsLeaf, IsLink, CellOk;
    var Place(_, p, slot) := m.place[x];
    assert !(p == t && slot == i);
    assert slot in m'.tables[p] && m'.tables[p][slot] == m.tables[p][slot];
  }

  lemma PlainWriteKeepsCells(m: Memory, levels: nat, t: PhysAddr, i: nat, e: Entry, m': Memory)
    requires CellsOk(m, levels) && PlainWrite(m, levels, t, i, e, m')
    ensures CellsOk(m', levels)
  {
    hide Contains, Entry.IsPresent, Entry.IsLeaf, IsLink, LeafOk;
    forall x: PhysAddr, j: nat | x in m'.tables && j in m'.tables[x]
      ensures x in m'.place && |m'.place[x].prefix| < levels
              && CellOk(m', x, j, m'.tables[x][j], LevelOf(m', x, levels))
    {
      if !(x == t && j == i) {
        assert j in m.tables[x] && m'.tables[x][j] == m.tables[x][j];
      }
    }
  }

  lemma PlainWriteKeepsTree(m: Memory, root: PhysAddr, levels: nat, t: PhysAddr, i: nat, e: Entry, m': Memory)
    requires IsTree(m, root, levels) && PlainWrite(m, levels, t, i, e, m')
    ensures IsTree(m', root, levels) && AgreesExcept(m, m', t, i)
    ensures ReadEntry(m'.tables, t, i) == Some(e)
  {
    PlainWriteKeepsPlaces(m, root, levels, t, i, e, m');
    PlainWriteKeepsCells(m, levels, t, i, e, m');
    hide CellsOk, PlacesOk, PlainWrite, HangsFromParent;
    assert PoolOk(m');
  }

  /** The premises and the effect of linking the pool's first frame into an absent cell. */
  ghost predicate Links(m: Memory, levels: nat, t: PhysAddr, i: nat, e: Entry, m': Memory) {
    && t in m.place && |m.place[t].prefix| < levels && t in m.tables && i < 512 && m.pool != []
    && !ReadEntry(m.tables, t, i).value.IsPresent()
    && IsLink(e, LevelOf(m, t, levels)) && LevelOf(m, t, levels) >= 2
    && Contains(e.flags, WRITABLE) && !Contains(e.flags, NO_EXECUTE)
    && e.frame == m.pool[0] && m.pool[0] !in m.tables
    && m'.tables == SetCell(m.tables[m.pool[0] := map[]], t, i, e)
    && m'.pool == m.pool[1..]
    && m'.place == m.place[m.pool[0] := Place(m.place[t].prefix + [i], t, i)]
  }

  lemma LinkKeepsPlaces(m: Memory, root: PhysAddr, levels: nat, t: PhysAddr, i: nat, e: Entry, m': Memory)
    requires PlacesOk(m, root, levels) && Links(m, levels, t, i, e, m')
    ensures PlacesOk(m', root, levels)
  {
    hide Contains, Entry.IsPresent, Entry.IsLeaf;
    forall x: PhysAddr | x in m'.place && x != root
      ensures HangsFromParent(m', x, levels)
    {
      if x != m.pool[0] {
        assert HangsFromParent(m, x, levels);
      }
    }
  }

  lemma LinkKeepsCells(m: Memory, levels: nat, t: PhysAddr, i: nat, e: Entry, m': Memory)
    requires CellsOk(m, levels) && Links(m, levels, t, i, e, m') && m.tables.Keys == m.place.Keys
    ensures CellsOk(m', levels)
  {
    hide Contains, Entry.IsPresent, Entry.IsLeaf, LeafOk;
    forall x: PhysAddr, j: nat | x in m'.tables && j in m'.tables[x]
      ensures x in m'.place && |m'.place[x].prefix| < levels
              && CellOk(m', x, j, m'.tables[x][j], LevelOf(m', x, levels))
    {
      if !(x == t && j == i) {
        assert x in m.tables && j in m.tables[x] && m'.tables[x][j] == m.tables[x][j];
      }
    }
  }

  /** Linking a fresh table into an absent cell. */
  lemma LinkKeepsTree(m: Memory, root: PhysAddr, levels: nat, t: PhysAddr, i: nat, user: bool)
    requires IsTree(m, root, levels) && t in m.place && i < 512
    requires !ReadEntry(m.tables, t, i).value.IsPresent()
    requires 2 <= LevelOf(m, t, levels) <= 5 && m.pool != []
    ensures var (m', r) := LinkNewTable(m, t, i, user);
            && IsTree(m', root, levels) && AgreesExcept(m, m', t, i) && r == Ok(m.pool[0])
            && Links(m, levels, t, i, Entry(m.pool[0], Intermediate(user)), m')
  {
    var child := m.pool[0];
    var (m', r) := LinkNewTable(m, t, i, user);
    var e := Entry(child, Intermediate(user));
    IntermediateIsLink(child, user, LevelOf(m, t, levels));
    hide Contains, Entry.IsPresent, Entry.IsLeaf, Intermediate, IsLink, CellsOk, HangsFromParent;
    assert Links(m, levels, t, i, e, m');
    LinkKeepsPlaces(m, root, levels, t, i, e, m');
    LinkKeepsCells(m, levels, t, i, e, m');
    assert PoolOk(m');
  }

  lemma IntermediateIsLink(child: PhysAddr, user: bool, level: nat)
    requires 2 <= level <= 5
    ensures IsLink(Entry(child, Intermediate(user)), level)
    ensures Contains(Intermediate(user), WRITABLE) && !Contains(Intermediate(user), NO_EXECUTE)
  {
    if user {
      assert (PRESENT | WRITABLE | USER) & HUGE == 0;
    }
  }
}
