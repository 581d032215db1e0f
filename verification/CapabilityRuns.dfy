/**
  What a capability table answers over whole runs: a map from handles while nothing is revoked,
  and never a wrong or a revoked token even when something is.
  */
module CapabilityRuns {
  import opened Wrappers
  import opened Capabilities

  // ----- without revocation --------------------------------------------------------------

  /** From its home to where it lies, a token is preceded only by tokens with other handles. */
  ghost predicate Reachable(t: Table, i: nat)
    requires i < SLOTS && t[i].Some?
  {
    var handle := t[i].value.Handle();
    forall j | 0 <= j < Steps(handle, i) :: !Stops(t, handle, j)
  }

  ghost predicate AllReachable(t: Table) {
    forall i | 0 <= i < SLOTS && t[i].Some? :: Reachable(t, i)
  }

  /** The table holds exactly the entries of `m`, and all can be found. */
  ghost predicate Represents(t: Table, m: map<nat, Capability>) {
    && AllReachable(t)
    && (forall i | 0 <= i < SLOTS && t[i].Some? :: t[i].value.Handle() in m && m[t[i].value.Handle()] == t[i].value)
    && (forall h | h in m :: exists i :: 0 <= i < SLOTS && t[i] == Some(m[h]) && m[h].Handle() == h)
    && |m| == Occupied(t, SLOTS)
  }

  function MapLookup(m: map<nat, Capability>, handle: nat): Option<Capability> {
    if handle in m then Some(m[handle]) else None
  }

  lemma ReachableIsFound(t: Table, i: nat)
    requires i < SLOTS && t[i].Some? && Reachable(t, i)
    ensures Found(t, t[i].value.Handle()) == t[i]
  {
    hide Capability.Handle;
    var handle := t[i].value.Handle();
    ProbeIs(t, handle, Steps(handle, i));
  }

  /** Looking up in the table is looking up in the map. */
  lemma FoundIsMapLookup(t: Table, m: map<nat, Capability>, handle: nat)
    requires Represents(t, m)
    ensures Found(t, handle) == MapLookup(m, handle)
  {
    hide Capability.Handle, Reachable, Occupied, Steps;
    FoundIsSound(t, handle);
    if handle in m {
      var i :| 0 <= i < SLOTS && t[i] == Some(m[handle]) && m[handle].Handle() == handle;
      ReachableIsFound(t, i);
    }
  }

  /** Whatever the table looks like: what is found lies in it, under the handle asked for. */
  lemma FoundIsSound(t: Table, handle: nat)
    ensures Found(t, handle).Some? ==>
              Found(t, handle).value.Handle() == handle && exists i :: 0 <= i < SLOTS && t[i] == Found(t, handle)
  {
    hide Capability.Handle;
  }

  lemma WriteKeepsReachable(t: Table, k: nat, cap: Capability, i: nat)
    requires k < SLOTS && AllReachable(t) && k == Probe(t, cap.Handle(), 0) && t[Slot(cap.Handle(), k)].None?
    requires i < SLOTS && t[Slot(cap.Handle(), k) := Some(cap)][i].Some?
    ensures Reachable(t[Slot(cap.Handle(), k) := Some(cap)], i)
  {
    hide Capability.Handle, Occupied, Steps, Probe, Slot;
    var at := Slot(cap.Handle(), k);
    var t' := t[at := Some(cap)];
    var handle := t'[i].value.Handle();
    if i == at {
      StepsOf(handle, k);
    } else {
      assert Reachable(t, i);
    }
    forall j | 0 <= j < Steps(handle, i)
      ensures !Stops(t', handle, j)
    {
      assert !Stops(t, handle, j);
    }
  }

  lemma StepsOf(handle: nat, k: nat)
    requires k < SLOTS
    ensures Steps(handle, Slot(handle, k)) == k
  {
  }

  /** The map after an insertion: the first token under a handle stays. */
  function MapInserted(m: map<nat, Capability>, cap: Capability): map<nat, Capability> {
    if |m| >= SLOTS || cap.Handle() in m then m else m[cap.Handle() := cap]
  }

  /** The table after `insert`, which refuses when all slots are taken. */
  function TableInserted(t: Table, cap: Capability): Table {
    if Occupied(t, SLOTS) == SLOTS then t else Inserted(t, cap)
  }

  lemma InsertRefinesMap(t: Table, m: map<nat, Capability>, cap: Capability)
    requires Represents(t, m)
    ensures Represents(TableInserted(t, cap), MapInserted(m, cap))
  {
    hide Capability.Handle, Occupied, Steps, Slot, Stops, Reachable;
    var handle := cap.Handle();
    if |m| < SLOTS {
      SearchStops(t, handle);
      FoundIsMapLookup(t, m, handle);
      if handle !in m {
        var k := Probe(t, handle, 0);
        var at := Slot(handle, k);
        assert t[at].None?;
        NewEntryRefines(t, m, cap, k);
      }
    }
  }

  lemma NewEntryRefines(t: Table, m: map<nat, Capability>, cap: Capability, k: nat)
    requires Represents(t, m) && cap.Handle() !in m && |m| < SLOTS
    requires k < SLOTS && k == Probe(t, cap.Handle(), 0) && t[Slot(cap.Handle(), k)].None?
    ensures Represents(t[Slot(cap.Handle(), k) := Some(cap)], m[cap.Handle() := cap])
  {
    hide Capability.Handle, Occupied, Steps, Slot, Stops, Reachable, Probe;
    var at := Slot(cap.Handle(), k);
    var t', m' := t[at := Some(cap)], m[cap.Handle() := cap];
    forall i | 0 <= i < SLOTS && t'[i].Some?
      ensures Reachable(t', i)
    {
      WriteKeepsReachable(t, k, cap, i);
    }
    OccupiedAfterWrite(t, at, Some(cap), SLOTS);
    forall h | h in m'
      ensures exists i :: 0 <= i < SLOTS && t'[i] == Some(m'[h]) && m'[h].Handle() == h
    {
      if h == cap.Handle() {
        assert t'[at] == Some(m'[h]);
      } else {
        var i :| 0 <= i < SLOTS && t[i] == Some(m[h]) && m[h].Handle() == h;
        assert t'[i] == Some(m'[h]);
      }
    }
  }

  function EmptyTable(): Table {
    seq(SLOTS, _ => None)
  }

  function TableAfter(caps: seq<Capability>): Table {
    if caps == [] then EmptyTable() else TableInserted(TableAfter(caps[..|caps| - 1]), caps[|caps| - 1])
  }

  function MapAfter(caps: seq<Capability>): map<nat, Capability> {
    if caps == [] then map[] else MapInserted(MapAfter(caps[..|caps| - 1]), caps[|caps| - 1])
  }

  lemma {:induction false} InsertionsRepresentMap(caps: seq<Capability>)
    ensures Represents(TableAfter(caps), MapAfter(caps))
  {
    if caps == [] {
      NothingOccupied(EmptyTable(), SLOTS);
    } else {
      InsertionsRepresentMap(caps[..|caps| - 1]);
      InsertRefinesMap(TableAfter(caps[..|caps| - 1]), MapAfter(caps[..|caps| - 1]), caps[|caps| - 1]);
    }
  }

  /** `caps[j]` is the first token under its handle. */
  ghost predicate IsFirstUnder(caps: seq<Capability>, handle: nat, j: nat) {
    && j < |caps| && caps[j].Handle() == handle
    && forall i | 0 <= i < j :: caps[i].Handle() != handle
  }

  /** The first token under its handle, which came while there was room. */
  ghost predicate IsKept(caps: seq<Capability>, handle: nat, j: nat) {
    IsFirstUnder(caps, handle, j) && |MapAfter(caps[..j])| < SLOTS
  }

  lemma {:induction false} MapOnlyGrows(caps: seq<Capability>, j: nat)
    requires j <= |caps|
    ensures |MapAfter(caps[..j])| <= |MapAfter(caps)| <= SLOTS
    decreases |caps|
  {
    hide Capability.Handle;
    if j < |caps| {
      var n := |caps| - 1;
      MapOnlyGrows(caps[..n], j);
      assert caps[..n][..j] == caps[..j];
    } else {
      assert caps[..j] == caps;
      if caps != [] { MapOnlyGrows(caps[..|caps| - 1], 0); }
    }
  }

  lemma {:induction false} MapHoldsFirst(caps: seq<Capability>, handle: nat)
    ensures handle in MapAfter(caps) ==> exists j: nat :: IsKept(caps, handle, j) && MapAfter(caps)[handle] == caps[j]
    ensures handle !in MapAfter(caps) ==> forall j: nat :: !IsKept(caps, handle, j)
  {
    hide *;
    MapGrowth(caps, handle);
    if caps != [] {
      var n := |caps| - 1;
      var front := caps[..n];
      MapHoldsFirst(front, handle);
      KeptInFront(caps, front, handle);
      if handle in MapAfter(front) {
        var j: nat :| IsKept(front, handle, j) && MapAfter(front)[handle] == front[j];
        assert IsKept(caps, handle, j);
      } else if handle in MapAfter(caps) {
        KeptLast(front, caps, handle);
        assert IsKept(caps, handle, n);
      } else {
        RefusedLast(caps, handle);
      }
    }
  }

  /** What the last insertion does to the map. */
  lemma MapGrowth(caps: seq<Capability>, handle: nat)
    ensures caps == [] ==> handle !in MapAfter(caps) && forall j: nat :: !IsKept(caps, handle, j)
    ensures caps != [] && handle in MapAfter(caps[..|caps| - 1]) ==>
              handle in MapAfter(caps) && MapAfter(caps)[handle] == MapAfter(caps[..|caps| - 1])[handle]
  {
    hide Capability.Handle;
  }

  /** Tokens kept before the last insertion stay the ones kept. */
  lemma KeptInFront(caps: seq<Capability>, front: seq<Capability>, handle: nat)
    requires caps != [] && front == caps[..|caps| - 1]
    ensures forall j: nat ::
              IsKept(caps, handle, j) <==> IsKept(front, handle, j) || (j == |front| && IsKept(caps, handle, |front|))
    ensures forall j: nat | IsKept(front, handle, j) :: j < |front|
  {
    hide Capability.Handle, MapAfter;
    forall j: nat | j < |front|
      ensures IsKept(front, handle, j) <==> IsKept(caps, handle, j)
    {
      assert front[..j] == caps[..j];
    }
  }

  lemma RefusedLast(caps: seq<Capability>, handle: nat)
    requires caps != [] && handle !in MapAfter(caps)
    ensures !IsKept(caps, handle, |caps| - 1)
  {
    hide Capability.Handle;
  }

  /** A handle that appears in the map with the last insertion was never inserted before. */
  lemma KeptLast(front: seq<Capability>, caps: seq<Capability>, handle: nat)
    requires caps != [] && front == caps[..|caps| - 1]
    requires handle in MapAfter(caps) && handle !in MapAfter(front) && forall j: nat :: !IsKept(front, handle, j)
    ensures IsKept(caps, handle, |caps| - 1) && MapAfter(caps)[handle] == caps[|caps| - 1]
  {
    hide Capability.Handle;
    var n := |caps| - 1;
    assert |MapAfter(front)| < SLOTS && caps[n].Handle() == handle;
    hide MapAfter;
    forall i | 0 <= i < n
      ensures caps[i].Handle() != handle
    {
      if caps[i].Handle() == handle { EarlierIsKept(front, handle, i); }
    }
  }

  lemma EarlierIsKept(caps: seq<Capability>, handle: nat, i: nat)
    requires i < |caps| && caps[i].Handle() == handle && |MapAfter(caps)| < SLOTS
    ensures exists j: nat :: IsKept(caps, handle, j)
  {
    hide Capability.Handle, MapAfter;
    var j := FirstUnder(caps, handle, i);
    MapOnlyGrows(caps, j);
    assert IsKept(caps, handle, j);
  }

  lemma {:induction false} FirstUnder(caps: seq<Capability>, handle: nat, i: nat) returns (j: nat)
    requires i < |caps| && caps[i].Handle() == handle
    ensures IsFirstUnder(caps, handle, j)
    decreases i
  {
    if forall k | 0 <= k < i :: caps[k].Handle() != handle {
      j := i;
    } else {
      var k :| 0 <= k < i && caps[k].Handle() == handle;
      j := FirstUnder(caps, handle, k);
    }
  }

  /**
    After any insertions and no revocation, lookup finds a token exactly when it is the first
    one inserted under its handle and it came while the table had room.
    */
  lemma LookupFindsFirstExactly(caps: seq<Capability>, handle: nat, cap: Capability)
    ensures Found(TableAfter(caps), handle) == Some(cap) <==>
            exists j: nat ::
              IsFirstUnder(caps, handle, j) && caps[j] == cap && Occupied(TableAfter(caps[..j]), SLOTS) < SLOTS
  {
    hide Capability.Handle, Found, TableAfter, Occupied, MapAfter, IsFirstUnder;
    InsertionsRepresentMap(caps);
    FoundIsMapLookup(TableAfter(caps), MapAfter(caps), handle);
    MapHoldsFirst(caps, handle);
    forall j: nat | IsFirstUnder(caps, handle, j)
      ensures j < |caps| && (IsKept(caps, handle, j) <==> Occupied(TableAfter(caps[..j]), SLOTS) < SLOTS)
      ensures forall i: nat :: IsFirstUnder(caps, handle, i) ==> i == j
    {
      FirstIsUnique(caps, handle, j);
      InsertionsRepresentMap(caps[..j]);
    }
  }

  lemma FirstIsUnique(caps: seq<Capability>, handle: nat, j: nat)
    requires IsFirstUnder(caps, handle, j)
    ensures j < |caps| && forall i: nat :: IsFirstUnder(caps, handle, i) ==> i == j
  {
    hide Capability.Handle;
  }

  // ----- with revocation -----------------------------------------------------------------

  /** In any table, lookup finds a token exactly when it lies somewhere reachable under that handle. */
  lemma FoundExactly(t: Table, handle: nat, cap: Capability)
    ensures Found(t, handle) == Some(cap) <==> exists i: nat :: LiesReachable(t, handle, cap, i)
  {
    hide Capability.Handle, Occupied;
    if Found(t, handle) == Some(cap) {
      var k := Probe(t, handle, 0);
      StepsOf(handle, k);
      assert LiesReachable(t, handle, cap, Slot(handle, k));
    }
    if i: nat :| LiesReachable(t, handle, cap, i) {
      ReachableIsFound(t, i);
    }
  }

  ghost predicate LiesReachable(t: Table, handle: nat, cap: Capability, i: nat) {
    i < SLOTS && t[i] == Some(cap) && cap.Handle() == handle && Reachable(t, i)
  }

  /** The slots on the way to slot `i` from the home of the token in it. */
  predicate IsOnTheWay(t: Table, i: nat, at: nat)
    requires i < SLOTS && t[i].Some?
  {
    exists j: nat :: j < Steps(t[i].value.Handle(), i) && Slot(t[i].value.Handle(), j) == at
  }

  /** Slot `at` keeps the search from going past it: it is empty, or holds the same handle. */
  predicate Blocks(t: Table, i: nat, at: nat)
    requires i < SLOTS && t[i].Some? && at < SLOTS
  {
    t[at].None? || Holds(t, at, t[i].value.Handle())
  }

  lemma ReachableUnblocked(t: Table, i: nat)
    requires i < SLOTS && t[i].Some?
    ensures Reachable(t, i) <==> forall at: nat | at < SLOTS && IsOnTheWay(t, i, at) :: !Blocks(t, i, at)
  {
    hide Capability.Handle, Steps, Slot, Holds;
    var handle := t[i].value.Handle();
    forall j | 0 <= j < Steps(handle, i)
      ensures IsOnTheWay(t, i, Slot(handle, j)) && (Stops(t, handle, j) <==> Blocks(t, i, Slot(handle, j)))
    {
    }
  }

  /**
    A revocation, in whatever state the table is: a token that survives can be reached afterwards
    exactly when it could before and no token on its way was revoked.
    */
  lemma ReachableAfterRevokeExactly(t: Table, target: Object, i: nat)
    requires i < SLOTS && Revoked(t, target)[i].Some?
    ensures t[i] == Revoked(t, target)[i]
    ensures Reachable(Revoked(t, target), i) <==>
            Reachable(t, i) && forall at: nat | at < SLOTS && IsOnTheWay(t, i, at) ::
              t[at].Some? && t[at].value.target != target
  {
    var t' := Revoked(t, target);
    ReachableUnblocked(t, i);
    ReachableUnblocked(t', i);
    hide Capability.Handle, Steps, Slot, Reachable;
    forall at: nat | at < SLOTS
      ensures IsOnTheWay(t', i, at) <==> IsOnTheWay(t, i, at)
      ensures Blocks(t', i, at) <==> Blocks(t, i, at) || t[at].value.target == target
    {
    }
  }

  /** The insertion fills slot `at` with `cap`. */
  predicate Fills(t: Table, cap: Capability, at: nat)
    requires at < SLOTS
  {
    t[at].None? && TableInserted(t, cap)[at].Some?
  }

  /**
    An insertion, in whatever state the table is: a token that was there can be reached afterwards
    exactly when all that blocked its way was the hole now filled, under another handle.
    */
  lemma ReachableAfterInsertExactly(t: Table, cap: Capability, i: nat)
    requires i < SLOTS && t[i].Some?
    ensures TableInserted(t, cap)[i] == t[i]
    ensures Reachable(TableInserted(t, cap), i) <==>
            forall at: nat | at < SLOTS && IsOnTheWay(t, i, at) && Blocks(t, i, at) ::
              Fills(t, cap, at) && cap.Handle() != t[i].value.Handle()
  {
    var t' := TableInserted(t, cap);
    ReachableUnblocked(t', i);
    hide Capability.Handle, Steps, Slot, Reachable, Occupied, Probe;
    forall at: nat | at < SLOTS
      ensures IsOnTheWay(t', i, at) <==> IsOnTheWay(t, i, at)
      ensures Blocks(t', i, at) <==> Blocks(t, i, at) && !(Fills(t, cap, at) && cap.Handle() != t[i].value.Handle())
    {
    }
  }

  /** What an insertion puts into the table can be reached there. */
  lemma FilledIsReachable(t: Table, cap: Capability, at: nat)
    requires at < SLOTS && Fills(t, cap, at)
    ensures TableInserted(t, cap)[at] == Some(cap) && Reachable(TableInserted(t, cap), at)
  {
    hide Capability.Handle, Occupied, Steps, Slot;
    var handle := cap.Handle();
    var k, t' := Probe(t, handle, 0), TableInserted(t, cap);
    assert at == Slot(handle, k);
    hide Probe;
    StepsOf(handle, k);
    forall j | 0 <= j < k
      ensures !Stops(t', handle, j)
    {
      assert !Stops(t, handle, j);
    }
  }

  /** So a token can be in the table and not be found: two tokens share a home and the first is revoked. */
  lemma RevocationCanHideOthers()
    ensures var a, b := Capability(0, 0, IrqVector(11), {IRQ}), Capability(0, 256, IrqVector(12), {IRQ});
            var t := TableAfter([a, b]);
            && Found(t, b.Handle()) == Some(b)
            && Found(Revoked(t, IrqVector(11)), b.Handle()) == None
            && Some(b) in Revoked(t, IrqVector(11))
  {
    var a, b := Capability(0, 0, IrqVector(11), {IRQ}), Capability(0, 256, IrqVector(12), {IRQ});
    assert a.Handle() == 0 && b.Handle() == 256;
    hide Capability.Handle;
    var e := EmptyTable();
    NothingOccupied(e, SLOTS);
    hide Occupied;
    assert Slot(0, 0) == 0 && Slot(256, 0) == 0 && Slot(256, 1) == 1 && Slot(0, 1) == 1;
    var t1 := e[0 := Some(a)];
    ProbeIs(e, 0, 0);
    OccupiedAfterWrite(e, 0, Some(a), SLOTS);
    var t2 := t1[1 := Some(b)];
    ProbeIs(t1, 256, 1);
    assert [a, b][..1] == [a] && [a][..0] == [];
    assert TableAfter([]) == e;
    assert TableAfter([a]) == t1;
    assert TableAfter([a, b]) == t2;
    ProbeIs(t2, 256, 1);
    var t3 := Revoked(t2, IrqVector(11));
    assert t3[0] == None && t3[1] == Some(b);
    ProbeIs(t3, 256, 0);
  }

  datatype Event = Insert(cap: Capability) | Revoke(target: Object)

  function TableAfterEvents(events: seq<Event>): Table {
    if events == [] then EmptyTable()
    else
      var t := TableAfterEvents(events[..|events| - 1]);
      match events[|events| - 1]
      case Insert(cap) => TableInserted(t, cap)
      case Revoke(target) => Revoked(t, target)
  }

  lemma TableAfterOneMore(events: seq<Event>, e: Event)
    ensures TableAfterEvents(events + [e]) ==
            if e.Insert? then TableInserted(TableAfterEvents(events), e.cap)
            else Revoked(TableAfterEvents(events), e.target)
  {
    hide TableInserted, Revoked;
    assert (events + [e])[..|events|] == events;
  }

  /** Event `e` leaves, or brings, the token in slot `i` within reach. */
  ghost predicate KeptBy(t: Table, e: Event, i: nat)
    requires i < SLOTS && t[i].Some?
  {
    if e.Insert? then
      forall at: nat | at < SLOTS && IsOnTheWay(t, i, at) && Blocks(t, i, at) ::
        Fills(t, e.cap, at) && e.cap.Handle() != t[i].value.Handle()
    else
      Reachable(t, i) && forall at: nat | at < SLOTS && IsOnTheWay(t, i, at) ::
        t[at].Some? && t[at].value.target != e.target
  }

  /**
    Over every run of insertions and revocations, event by event: a token that lies in the table
    before and after an event can be reached after it exactly when the event keeps it, and one
    just put there can be reached. What cannot be reached is not found, unless a copy can.
    */
  lemma RunReachesExactly(events: seq<Event>, e: Event, i: nat)
    requires i < SLOTS && TableAfterEvents(events + [e])[i].Some?
    ensures var t, t' := TableAfterEvents(events), TableAfterEvents(events + [e]);
            && (Reachable(t', i) <==> t[i].None? || KeptBy(t, e, i))
            && (Found(t', t'[i].value.Handle()) == t'[i] <==>
                  exists k: nat :: LiesReachable(t', t'[i].value.Handle(), t'[i].value, k))
  {
    TableAfterOneMore(events, e);
    var t, t' := TableAfterEvents(events), TableAfterEvents(events + [e]);
    FoundExactly(t', t'[i].value.Handle(), t'[i].value);
    hide *;
    match e {
      case Insert(cap) =>
        InsertCases(t, cap, i);
      case Revoke(target) =>
        ReachableAfterRevokeExactly(t, target, i);
        RevokeKeeps(t, target, i);
    }
  }

  lemma InsertCases(t: Table, cap: Capability, i: nat)
    requires i < SLOTS && TableInserted(t, cap)[i].Some?
    ensures Reachable(TableInserted(t, cap), i) <==> t[i].None? || KeptBy(t, Insert(cap), i)
  {
    hide Reachable, TableInserted;
    if t[i].None? { FilledIsReachable(t, cap, i); } else { ReachableAfterInsertExactly(t, cap, i); }
  }

  lemma RevokeKeeps(t: Table, target: Object, i: nat)
    requires i < SLOTS && t[i].Some?
    ensures KeptBy(t, Revoke(target), i) <==>
            Reachable(t, i) && forall at: nat | at < SLOTS && IsOnTheWay(t, i, at) ::
              t[at].Some? && t[at].value.target != target
  {
  }

  /**
    In lookups: a token that was found and is not revoked itself is found after a revocation
    exactly when none on its way was revoked.
    */
  lemma LookupAfterRevokeExactly(events: seq<Event>, target: Object, i: nat)
    requires var t := TableAfterEvents(events);
             i < SLOTS && t[i].Some? && Reachable(t, i) && t[i].value.target != target
    ensures var t, t' := TableAfterEvents(events), TableAfterEvents(events + [Revoke(target)]);
            Found(t', t[i].value.Handle()) == t[i] <==>
            forall at: nat | at < SLOTS && IsOnTheWay(t, i, at) :: t[at].Some? && t[at].value.target != target
  {
    TableAfterOneMore(events, Revoke(target));
    FoundAfterRevoke(TableAfterEvents(events), target, i);
  }

  lemma FoundAfterRevoke(t: Table, target: Object, i: nat)
    requires i < SLOTS && t[i].Some? && Reachable(t, i) && t[i].value.target != target
    ensures Found(Revoked(t, target), t[i].value.Handle()) == t[i] <==>
            forall at: nat | at < SLOTS && IsOnTheWay(t, i, at) :: t[at].Some? && t[at].value.target != target
  {
    ReachableAfterRevokeExactly(t, target, i);
    var t', handle := Revoked(t, target), t[i].value.Handle();
    hide Capability.Handle, Occupied;
    if Reachable(t', i) {
      ReachableIsFound(t', i);
    } else {
      // On the way there was no other token of this handle, so the search now ends in a hole.
      var j :| 0 <= j < Steps(handle, i) && Stops(t', handle, j);
      assert !Stops(t, handle, j);
      assert Probe(t', handle, 0) <= j;
      assert !Stops(t, handle, Probe(t', handle, 0));
    }
  }

  /** Inserted by event `j`, and its object not revoked since. */
  ghost predicate IsLive(events: seq<Event>, cap: Capability, j: nat) {
    && j < |events| && events[j] == Insert(cap)
    && forall k | j < k < |events| :: events[k] != Revoke(cap.target)
  }

  lemma {:induction false} HeldIsLive(events: seq<Event>, i: nat)
    requires i < SLOTS && TableAfterEvents(events)[i].Some?
    ensures exists j: nat :: IsLive(events, TableAfterEvents(events)[i].value, j)
  {
    hide Capability.Handle, Occupied, Probe, Slot;
    var n := |events| - 1;
    var t, t' := TableAfterEvents(events[..n]), TableAfterEvents(events);
    var cap := t'[i].value;
    if t[i] == t'[i] {
      HeldIsLive(events[..n], i);
      var j: nat :| IsLive(events[..n], cap, j);
      assert IsLive(events, cap, j);
    } else {
      assert IsLive(events, cap, n);
    }
  }

  /** Over any run, what lookup finds was inserted under that handle, and not revoked since. */
  lemma LookupIsSound(events: seq<Event>, handle: nat)
    ensures var found := Found(TableAfterEvents(events), handle);
            found.Some? ==> found.value.Handle() == handle && exists j: nat :: IsLive(events, found.value, j)
  {
    hide Capability.Handle, Found;
    FoundIsSound(TableAfterEvents(events), handle);
    if Found(TableAfterEvents(events), handle).Some? {
      var i :| 0 <= i < SLOTS && TableAfterEvents(events)[i] == Found(TableAfterEvents(events), handle);
      HeldIsLive(events, i);
    }
  }

  // ----- when the table is still a map ---------------------------------------------------

  /** What the table should hold: the first token under each handle, without those revoked. */
  function MapAfterEvents(events: seq<Event>): map<nat, Capability> {
    if events == [] then map[]
    else
      var m, last := MapAfterEvents(events[..|events| - 1]), events[|events| - 1];
      if last.Insert? then MapInserted(m, last.cap) else MapRevoked(m, last.target)
  }

  function MapRevoked(m: map<nat, Capability>, target: Object): map<nat, Capability> {
    map h | h in m && m[h].target != target :: m[h]
  }

  /** No token that survives the revocation has a revoked one on its way. */
  ghost predicate IsHarmless(t: Table, target: Object) {
    forall i: nat, at: nat |
      i < SLOTS && at < SLOTS && t[i].Some? && t[i].value.target != target && IsOnTheWay(t, i, at) && t[at].Some? ::
      t[at].value.target != target
  }

  /** The table's first `n` slots as a map. */
  function Contents(t: Table, n: nat): map<nat, Capability>
    requires n <= SLOTS
  {
    if n == 0 then map[]
    else if t[n - 1].None? then Contents(t, n - 1)
    else Contents(t, n - 1)[t[n - 1].value.Handle() := t[n - 1].value]
  }

  /** If all tokens can be reached, no two share a handle: the later one could not be. */
  lemma ReachableHandlesDiffer(t: Table, i: nat, k: nat)
    requires AllReachable(t) && i < SLOTS && k < SLOTS && i != k && t[i].Some? && t[k].Some?
    ensures t[i].value.Handle() != t[k].value.Handle()
  {
    hide Capability.Handle, Steps, Slot, Reachable;
    var h := t[i].value.Handle();
    if t[k].value.Handle() == h {
      if Steps(h, i) < Steps(h, k) { NearerBlocks(t, i, k); } else { NearerBlocks(t, k, i); }
    }
  }

  lemma NearerBlocks(t: Table, near: nat, far: nat)
    requires near < SLOTS && far < SLOTS && t[near].Some? && t[far].Some?
    requires t[near].value.Handle() == t[far].value.Handle()
    requires Steps(t[far].value.Handle(), near) < Steps(t[far].value.Handle(), far)
    ensures !Reachable(t, far)
  {
    hide Capability.Handle, Steps, Slot;
    assert Stops(t, t[far].value.Handle(), Steps(t[far].value.Handle(), near));
  }

  lemma {:induction false} ContentsCount(t: Table, n: nat)
    requires AllReachable(t) && n <= SLOTS
    ensures |Contents(t, n)| == Occupied(t, n)
    ensures forall h :: h in Contents(t, n) <==> exists i: nat :: i < n && IsUnder(t, i, h)
    ensures forall i: nat | i < n && t[i].Some? ::
              t[i].value.Handle() in Contents(t, n) && Contents(t, n)[t[i].value.Handle()] == t[i].value
  {
    hide Capability.Handle, AllReachable;
    if n > 0 {
      ContentsCount(t, n - 1);
      var last := n - 1;
      forall i: nat | i < last && t[i].Some? && t[last].Some?
        ensures t[i].value.Handle() != t[last].value.Handle()
      {
        ReachableHandlesDiffer(t, i, last);
      }
      forall h
        ensures h in Contents(t, n) <==> exists i: nat :: i < n && IsUnder(t, i, h)
      {
        if t[last].Some? && h == t[last].value.Handle() { assert IsUnder(t, last, h); }
        if i: nat :| i < n && IsUnder(t, i, h) { assert i < last || i == last; }
        if i: nat :| i < last && IsUnder(t, i, h) { assert i < n; }
      }
    }
  }

  predicate IsUnder(t: Table, i: nat, handle: nat) {
    i < SLOTS && t[i].Some? && t[i].value.Handle() == handle
  }

  /** A table whose tokens can all be reached represents a map as soon as both hold the same tokens. */
  lemma SameTokensRepresent(t: Table, m: map<nat, Capability>)
    requires AllReachable(t)
    requires forall i: nat | i < SLOTS && t[i].Some? ::
               t[i].value.Handle() in m && m[t[i].value.Handle()] == t[i].value
    requires forall h | h in m :: exists i :: 0 <= i < SLOTS && t[i] == Some(m[h]) && m[h].Handle() == h
    ensures Represents(t, m)
  {
    hide Capability.Handle, Reachable;
    ContentsCount(t, SLOTS);
    var c := Contents(t, SLOTS);
    hide Contents, Occupied, AllReachable;
    forall h
      ensures h in c <==> h in m
      ensures h in c ==> c[h] == m[h]
    {
      if h in m {
        var i :| 0 <= i < SLOTS && t[i] == Some(m[h]) && m[h].Handle() == h;
        assert IsUnder(t, i, h);
      }
      if h in c {
        var i: nat :| i < SLOTS && IsUnder(t, i, h);
      }
    }
    assert c == m;
  }

  lemma HarmlessKeepsReachable(t: Table, target: Object)
    requires AllReachable(t)
    ensures AllReachable(Revoked(t, target)) <==> IsHarmless(t, target)
  {
    var t' := Revoked(t, target);
    forall i: nat | i < SLOTS && t'[i].Some?
      ensures t[i] == t'[i] && t[i].value.target != target
      ensures Reachable(t', i) <==>
              forall at: nat | at < SLOTS && IsOnTheWay(t, i, at) && t[at].Some? :: t[at].value.target != target
    {
      ReachableAfterRevokeExactly(t, target, i);
      assert Reachable(t, i);
      ReachableUnblocked(t, i);
      hide Capability.Handle, Reachable, IsOnTheWay;
    }
    hide Capability.Handle, Reachable, IsOnTheWay;
    if AllReachable(t') {
      forall i: nat, at: nat |
        i < SLOTS && at < SLOTS && t[i].Some? && t[i].value.target != target && IsOnTheWay(t, i, at) && t[at].Some?
        ensures t[at].value.target != target
      {
        assert t'[i].Some?;
      }
    }
  }

  /** A revocation takes exactly the revoked tokens off the map, exactly when it is harmless. */
  lemma RevokeRefinesMapExactly(t: Table, m: map<nat, Capability>, target: Object)
    requires Represents(t, m)
    ensures Represents(Revoked(t, target), MapRevoked(m, target)) <==> IsHarmless(t, target)
  {
    hide Capability.Handle, Occupied, IsHarmless, Reachable;
    HarmlessKeepsReachable(t, target);
    if IsHarmless(t, target) {
      var t', m' := Revoked(t, target), MapRevoked(m, target);
      forall h | h in m'
        ensures exists i :: 0 <= i < SLOTS && t'[i] == Some(m'[h]) && m'[h].Handle() == h
      {
        var i :| 0 <= i < SLOTS && t[i] == Some(m[h]) && m[h].Handle() == h;
        assert t'[i] == Some(m'[h]);
      }
      SameTokensRepresent(t', m');
    }
  }

  /** After the run, and after each part of it from the start, the table represents the map. */
  ghost predicate StaysAMap(events: seq<Event>) {
    && Represents(TableAfterEvents(events), MapAfterEvents(events))
    && (events != [] ==> StaysAMap(events[..|events| - 1]))
  }

  ghost predicate RevokesHarmlessly(events: seq<Event>) {
    events != [] ==>
      var front, last := events[..|events| - 1], events[|events| - 1];
      RevokesHarmlessly(front) && (last.Revoke? ==> IsHarmless(TableAfterEvents(front), last.target))
  }

  /**
    Over every run of insertions and revocations: the table stays a map from handles to the first
    token inserted and not revoked, at every point, exactly when every revocation was harmless.
    */
  lemma {:induction false} StaysAMapExactly(events: seq<Event>)
    ensures StaysAMap(events) <==> RevokesHarmlessly(events)
  {
    hide Represents, IsHarmless, TableAfterEvents, MapAfterEvents;
    if events == [] {
      EmptyRepresents();
    } else {
      var front := events[..|events| - 1];
      StaysAMapExactly(front);
      if StaysAMap(front) { EventRefinesMap(events, front); }
    }
  }

  lemma EmptyRepresents()
    ensures Represents(TableAfterEvents([]), MapAfterEvents([]))
  {
    NothingOccupied(EmptyTable(), SLOTS);
  }

  lemma EventRefinesMap(events: seq<Event>, front: seq<Event>)
    requires events != [] && front == events[..|events| - 1]
    requires Represents(TableAfterEvents(front), MapAfterEvents(front))
    ensures Represents(TableAfterEvents(events), MapAfterEvents(events)) <==>
            (events[|front|].Revoke? ==> IsHarmless(TableAfterEvents(front), events[|front|].target))
  {
    var t, m, last := TableAfterEvents(front), MapAfterEvents(front), events[|front|];
    hide Represents, IsHarmless, TableInserted, MapInserted, Revoked, MapRevoked;
    if last.Insert? {
      InsertRefinesMap(t, m, last.cap);
    } else {
      RevokeRefinesMapExactly(t, m, last.target);
    }
  }
}
