/**
  Capability tokens (`cap.rs`): rights that only shrink, and the per-process table that finds a
  token by its handle with open addressing and no tombstones.
  */
module Capabilities {
  import opened Wrappers
  import opened Words
  import opened Bits

  datatype Right = READ | WRITE | EXECUTE | SEND | RECEIVE | DELEGATE | MAP_MMIO | DMA | IRQ | GAME_MODE | INTROSPECT

  datatype Object =
    | Endpoint(id: nat)
    | MemoryRegion(base: nat, len: nat)
    | IrqVector(vector: nat)
    | Process(pid: nat)
    | GameMode

  /** The 128-bit token is kept as its two halves. */
  datatype Capability = Capability(high: u64, low: u64, target: Object, rights: set<Right>) {
    predicate Permits(required: Right) { required in rights }

    function Handle(): nat { Xor(high, low) }

    /** A weaker token for the same object, with a fresh value. */
    function Derive(requested: set<Right>, freshHigh: u64, freshLow: u64): Option<Capability> {
      if DELEGATE !in rights then None
      else if !(requested <= rights) then None
      else Some(Capability(freshHigh, freshLow, target, requested))
    }
  }

  // ----- delegation ----------------------------------------------------------------------

  ghost predicate DerivesFrom(parent: Capability, child: Capability) {
    parent.Derive(child.rights, child.high, child.low) == Some(child)
  }

  /** A chain of delegations from the first to the last. */
  ghost predicate IsChain(caps: seq<Capability>) {
    |caps| > 0 && forall i | 0 <= i < |caps| - 1 :: DerivesFrom(caps[i], caps[i + 1])
  }

  lemma {:induction false} ChainNeverAmplifies(caps: seq<Capability>)
    requires IsChain(caps)
    ensures caps[|caps| - 1].rights <= caps[0].rights && caps[|caps| - 1].target == caps[0].target
    ensures |caps| > 1 ==> DELEGATE in caps[0].rights
  {
    if |caps| > 1 {
      assert DerivesFrom(caps[0], caps[1]);
      forall i | 0 <= i < |caps| - 2
        ensures DerivesFrom(caps[1..][i], caps[1..][i + 1])
      {
        assert DerivesFrom(caps[i + 1], caps[i + 2]);
      }
      ChainNeverAmplifies(caps[1..]);
    }
  }

  /** What can be reached by delegation, in one step or many, is exactly the subsets of what may be delegated. */
  lemma ReachableRightsExactly(root: Capability, goal: Capability)
    requires goal != root
    ensures (exists caps :: IsChain(caps) && caps[0] == root && caps[|caps| - 1] == goal) <==>
            DELEGATE in root.rights && goal.rights <= root.rights && goal.target == root.target
  {
    if exists caps :: IsChain(caps) && caps[0] == root && caps[|caps| - 1] == goal {
      var caps :| IsChain(caps) && caps[0] == root && caps[|caps| - 1] == goal;
      ChainNeverAmplifies(caps);
    }
    if DELEGATE in root.rights && goal.rights <= root.rights && goal.target == root.target {
      var caps := [root, goal];
      assert DerivesFrom(caps[0], caps[1]);
      assert IsChain(caps);
    }
  }

  // ----- the table -----------------------------------------------------------------------

  const SLOTS: nat := 256

  type Table = s: seq<Option<Capability>> | |s| == SLOTS witness seq(SLOTS, _ => None)

  function Home(handle: nat): nat { handle % SLOTS }

  /** The slot `k` steps after the home of `handle`. */
  function Slot(handle: nat, k: nat): (i: nat)
    ensures i < SLOTS
  {
    (Home(handle) + k) % SLOTS
  }

  /** How many steps the slot `i` lies after the home of `handle`. */
  function Steps(handle: nat, i: nat): (k: nat)
    requires i < SLOTS
    ensures k < SLOTS && Slot(handle, k) == i
    ensures forall j: nat :: j < SLOTS && Slot(handle, j) == i ==> j == k
  {
    (i + SLOTS - Home(handle)) % SLOTS
  }

  predicate Holds(t: Table, i: nat, handle: nat)
    requires i < SLOTS
  {
    t[i].Some? && t[i].value.Handle() == handle
  }

  /** Where a search stops: at a hole, or at the handle. */
  predicate Stops(t: Table, handle: nat, k: nat) {
    t[Slot(handle, k)].None? || Holds(t, Slot(handle, k), handle)
  }

  /** The first step from `k` on where the search stops, or 256. */
  function Probe(t: Table, handle: nat, k: nat): (r: nat)
    requires k <= SLOTS
    ensures k <= r <= SLOTS
    ensures forall j | k <= j < r :: !Stops(t, handle, j)
    ensures r < SLOTS ==> Stops(t, handle, r)
    decreases SLOTS - k
  {
    if k == SLOTS || Stops(t, handle, k) then k else Probe(t, handle, k + 1)
  }

  function Found(t: Table, handle: nat): Option<Capability> {
    var k := Probe(t, handle, 0);
    if k == SLOTS then None else t[Slot(handle, k)]
  }

  function Inserted(t: Table, cap: Capability): Table {
    var k := Probe(t, cap.Handle(), 0);
    if k == SLOTS then t
    else
      var i := Slot(cap.Handle(), k);
      if t[i].None? then t[i := Some(cap)] else t
  }

  function Revoked(t: Table, target: Object): Table {
    seq(SLOTS, i requires 0 <= i < SLOTS => if t[i].Some? && t[i].value.target == target then None else t[i])
  }

  /** How many of the first `n` slots are occupied. */
  function Occupied(t: Table, n: nat): (c: nat)
    requires n <= SLOTS
    ensures c <= n
    ensures c == n <==> forall i | 0 <= i < n :: t[i].Some?
  {
    if n == 0 then 0 else Occupied(t, n - 1) + if t[n - 1].Some? then 1 else 0
  }

  lemma {:induction false} OccupiedAfterWrite(t: Table, i: nat, v: Option<Capability>, n: nat)
    requires i < SLOTS && n <= SLOTS
    ensures Occupied(t[i := v], n) ==
            Occupied(t, n) + (if i < n && v.Some? then 1 else 0) - (if i < n && t[i].Some? then 1 else 0)
  {
    if n > 0 { OccupiedAfterWrite(t, i, v, n - 1); }
  }

  /** While a slot is free, every search stops before it has gone round: `insert` terminates. */
  lemma SearchStops(t: Table, handle: nat)
    requires Occupied(t, SLOTS) < SLOTS
    ensures Probe(t, handle, 0) < SLOTS
  {
    var i :| 0 <= i < SLOTS && t[i].None?;
    assert Stops(t, handle, Steps(handle, i));
  }

  lemma ProbeIs(t: Table, handle: nat, k: nat)
    requires k < SLOTS && Stops(t, handle, k) && forall j | 0 <= j < k :: !Stops(t, handle, j)
    ensures Probe(t, handle, 0) == k
  {
  }

  class CapSet {
    const entries: array<Option<Capability>>
    var len: nat

    ghost predicate Valid()
      reads this, entries
    {
      entries.Length == SLOTS && len == Occupied(entries[..], SLOTS)
    }

    function Table(): Table
      reads this, entries
      requires Valid()
    {
      entries[..]
    }

    constructor ()
      ensures Valid() && fresh(entries) && forall i | 0 <= i < SLOTS :: Table()[i] == None
    {
      entries := new Option<Capability>[SLOTS](_ => None);
      len := 0;
      new;
      NothingOccupied(entries[..], SLOTS);
    }

    method Insert(cap: Capability) returns (r: Option<nat>)
      requires Valid()
      modifies this, entries
      ensures Valid()
      ensures old(len) == SLOTS ==> r == None && Table() == old(Table())
      ensures old(len) < SLOTS ==> r == Some(cap.Handle()) && Table() == Inserted(old(Table()), cap)
    {
      hide Stops, Holds, Steps, Occupied, Capability.Handle;
      if len == SLOTS { return None; }
      var handle := cap.Handle();
      ghost var t := Table();
      SearchStops(t, handle);
      var idx := handle % SLOTS;
      ghost var k: nat := 0;
      while true
        invariant k <= Probe(t, handle, 0) < SLOTS && idx == Slot(handle, k)
        invariant forall j | 0 <= j < k :: !Stops(t, handle, j)
        invariant Valid() && Table() == t && len < SLOTS
        decreases SLOTS - k
      {
        StopsHere(t, handle, k);
        var slot := entries[idx];
        if slot.None? {
          ProbeIs(t, handle, k);
          OccupiedAfterWrite(t, idx, Some(cap), SLOTS);
          entries[idx] := Some(cap);
          len := len + 1;
          return Some(handle);
        }
        if slot.value.Handle() == handle {
          ProbeIs(t, handle, k);
          return Some(handle);
        }
        idx := (idx + 1) % SLOTS;
        k := k + 1;
      }
    }

    method Lookup(handle: nat) returns (r: Option<Capability>)
      requires Valid()
      ensures r == Found(Table(), handle)
    {
      hide Stops, Holds, Steps, Occupied, Capability.Handle;
      var idx := handle % SLOTS;
      for k := 0 to SLOTS
        invariant idx == Slot(handle, k)
        invariant forall j | 0 <= j < k :: !Stops(Table(), handle, j)
      {
        StopsHere(Table(), handle, k);
        var slot := entries[idx];
        if slot.None? {
          ProbeIs(Table(), handle, k);
          return None;
        }
        if slot.value.Handle() == handle {
          ProbeIs(Table(), handle, k);
          return slot;
        }
        idx := (idx + 1) % SLOTS;
      }
      r := None;
    }

    method RevokeObject(target: Object) returns (revoked: nat)
      requires Valid()
      modifies this, entries
      ensures Valid() && Table() == Revoked(old(Table()), target) && revoked == old(len) - len
    {
      hide Occupied;
      revoked := 0;
      ghost var t := Table();
      for i := 0 to SLOTS
        invariant Valid() && len + revoked == old(len)
        invariant forall j | 0 <= j < i :: entries[j] == Revoked(t, target)[j]
        invariant forall j | i <= j < SLOTS :: entries[j] == t[j]
      {
        if entries[i].Some? && entries[i].value.target == target {
          OccupiedAfterWrite(entries[..], i, None, SLOTS);
          OccupiedSlot(entries[..], i);
          entries[i] := None;
          revoked := revoked + 1;
          len := len - 1;
        }
      }
      assert Table() == Revoked(t, target);
    }
  }

  lemma {:induction false} NothingOccupied(t: Table, n: nat)
    requires n <= SLOTS && forall i | 0 <= i < SLOTS :: t[i].None?
    ensures Occupied(t, n) == 0
  {
    if n > 0 { NothingOccupied(t, n - 1); }
  }

  lemma OccupiedSlot(t: Table, i: nat)
    requires i < SLOTS && t[i].Some?
    ensures Occupied(t, SLOTS) > 0
  {
    OccupiedAfterWrite(t, i, None, SLOTS);
  }

  lemma StopsHere(t: Table, handle: nat, k: nat)
    ensures Stops(t, handle, k) <==>
            t[Slot(handle, k)].None? || t[Slot(handle, k)].value.Handle() == handle
    ensures Slot(handle, k + 1) == (Slot(handle, k) + 1) % SLOTS
    ensures k < Probe(t, handle, 0) ==> !Stops(t, handle, k)
  {
  }
}
