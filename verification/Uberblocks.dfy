/**
  The rotation of uberblocks (`layout.rs`) as a crash protocol: commits go round the slots, any
  of them may be torn by a crash, and the next mount picks the newest uberblock it can trust.

  The checksum is a parameter; nothing is assumed about it. The protocol is stated for any
  number of slots; the source has four.
  */
module Uberblocks {
  import opened Wrappers
  import Arith

  const MAGIC: nat := 0x5350_4543_5452_4546
  const VERSION: nat := 1

  /** `contents` stands for the roots, the volume and the time. */
  datatype Uberblock = Uberblock(magic: nat, version: nat, txg: nat, contents: nat, checksum: nat) {
    /** Which of `n` slots the commit after this one writes to. */
    function NextSlot(n: nat): (slot: nat)
      requires n > 0
      ensures slot < n
    {
      (txg + 1) % n
    }
  }

  /** The checksum of every field but the last. */
  type Checksum = (nat, nat, nat, nat) -> nat

  type Slots = seq<Option<Uberblock>>

  predicate IsTrusted(u: Uberblock, sum: Checksum) {
    u.magic == MAGIC && u.version <= VERSION && u.checksum == sum(u.magic, u.version, u.txg, u.contents)
  }

  predicate HoldsTrusted(slots: Slots, k: nat, sum: Checksum)
    requires k < |slots|
  {
    slots[k].Some? && IsTrusted(slots[k].value, sum)
  }

  /** What a commit writes: the magic number, a version up to 1, and the sum of all fields but the last. */
  ghost predicate IsComplete(u: Uberblock, sum: Checksum) {
    u.magic == 0x5350_4543_5452_4546 && u.version <= 1 && u.checksum == sum(u.magic, u.version, u.txg, u.contents)
  }

  /** What a mount selects is in a slot and has all three right, and nothing in a slot that has is newer. */
  ghost predicate IsSelected(slots: Slots, sum: Checksum, r: Option<Uberblock>) {
    && (r.Some? ==>
          && r in slots && r.value.magic == 0x5350_4543_5452_4546 && r.value.version <= 1
          && r.value.checksum == sum(r.value.magic, r.value.version, r.value.txg, r.value.contents))
    && forall u: Uberblock | Some(u) in slots && u.magic == 0x5350_4543_5452_4546 && u.version <= 1
         && u.checksum == sum(u.magic, u.version, u.txg, u.contents) :: r.Some? && u.txg <= r.value.txg
  }

  ghost predicate IsLastOfNewest(slots: Slots, k: nat, u: Uberblock, sum: Checksum) {
    && k < |slots| && slots[k] == Some(u)
    && forall j | k < j < |slots| && HoldsTrusted(slots, j, sum) :: slots[j].value.txg < u.txg
  }

  /** `max_by_key` over the trusted slots; of equal keys it keeps the last. */
  method SelectNewestValid(slots: Slots, sum: Checksum) returns (best: Option<Uberblock>)
    ensures IsSelected(slots, sum, best)
    ensures best.Some? ==> exists k: nat :: IsLastOfNewest(slots, k, best.value, sum)
  {
    best := None;
    ghost var at: nat := 0;
    for k := 0 to |slots|
      invariant best.None? ==> forall j | 0 <= j < k :: !HoldsTrusted(slots, j, sum)
      invariant best.Some? ==> 0 <= at < k && HoldsTrusted(slots, at, sum) && slots[at] == best
      invariant best.Some? ==>
                forall j | 0 <= j < k && HoldsTrusted(slots, j, sum) :: slots[j].value.txg <= best.value.txg
      invariant best.Some? ==>
                forall j | at < j < k && HoldsTrusted(slots, j, sum) :: slots[j].value.txg < best.value.txg
    {
      if HoldsTrusted(slots, k, sum) && (best.None? || slots[k].value.txg >= best.value.txg) {
        best := slots[k];
        at := k;
      }
    }
    if best.Some? { assert IsLastOfNewest(slots, at, best.value, sum); }
    forall u: Uberblock | Some(u) in slots && IsTrusted(u, sum)
      ensures best.Some? && u.txg <= best.value.txg
    {
      var k :| 0 <= k < |slots| && slots[k] == Some(u);
      assert HoldsTrusted(slots, k, sum);
    }
  }

  // ----- the protocol --------------------------------------------------------------------

  /** The disk, the uberblock the running system goes by, and the commits completed since the volume was made. */
  datatype Volume = Volume(slots: Slots, current: Uberblock, completed: seq<Uberblock>)

  datatype Event = Complete(u: Uberblock) | Torn(u: Uberblock, left: Option<Uberblock>)

  /** A commit prepares the next transaction group. */
  ghost predicate IsNext(current: Uberblock, u: Uberblock, sum: Checksum) {
    u.txg == current.txg + 1 && IsComplete(u, sum)
  }

  /** What a torn write leaves in a slot: what was there, nothing, or fields whose sum is not the one beside them. */
  ghost predicate IsTornWrite(before: Option<Uberblock>, left: Option<Uberblock>, sum: Checksum) {
    || left == before || left.None?
    || left.value.checksum != sum(left.value.magic, left.value.version, left.value.txg, left.value.contents)
  }

  /** A commit to the next slot completes, or is torn by a crash and the volume is mounted again. */
  ghost predicate Step(v: Volume, e: Event, v': Volume, sum: Checksum) {
    var n := |v.slots|;
    && n > 0 && IsNext(v.current, e.u, sum)
    && var slot := v.current.NextSlot(n);
       match e
       case Complete(u) => v' == Volume(v.slots[slot := Some(u)], u, v.completed + [u])
       case Torn(u, left) =>
         && IsTornWrite(v.slots[slot], left, sum)
         && v'.slots == v.slots[slot := left] && v'.completed == v.completed
         && IsSelected(v'.slots, sum, Some(v'.current))
  }

  /** A new volume: one uberblock, in the slot of its own number, and in no other slot one that has the three right. */
  ghost predicate IsFormatted(v: Volume, sum: Checksum) {
    var n := |v.slots|;
    && n > 0 && IsComplete(v.current, sum) && v.completed == [v.current]
    && v.slots[v.current.txg % n] == Some(v.current)
    && forall k | 0 <= k < n && k != v.current.txg % n && v.slots[k].Some? ::
         var u := v.slots[k].value;
         u.magic != 0x5350_4543_5452_4546 || u.version > 1 || u.checksum != sum(u.magic, u.version, u.txg, u.contents)
  }

  // ----- the invariant -------------------------------------------------------------------

  /** The `back`-th commit before the last. */
  function Recent(v: Volume, back: nat): Uberblock
    requires back < |v.completed|
  {
    v.completed[|v.completed| - 1 - back]
  }

  /** The last `n - 1` commits are on disk and nothing else can be taken for a newer one. */
  ghost predicate Inv(v: Volume, sum: Checksum) {
    var n, count := |v.slots|, |v.completed|;
    && n > 0 && count > 0 && v.current == Recent(v, 0)
    && (forall i | 0 <= i < count ::
         IsComplete(v.completed[i], sum) && v.completed[i].txg + count == v.current.txg + i + 1)
    && (forall back | 0 <= back < n - 1 && back < count :: v.slots[Recent(v, back).txg % n] == Some(Recent(v, back)))
    && (forall k | 0 <= k < n && HoldsTrusted(v.slots, k, sum) ::
         v.slots[k].value.txg <= v.current.txg && v.slots[k].value.txg % n == k)
  }

  lemma DifferentSlots(a: nat, b: nat, n: nat)
    requires a < b < a + n
    ensures a % n != b % n
  {
    var qa, qb := a / n, b / n;
    assert a == qa * n + a % n && b == qb * n + b % n;
    if a % n == b % n {
      if qa < qb { Arith.MulGap(qa, qb, n); } else { Arith.MulMonotone(qb, qa, n); }
    }
  }

  lemma NewestIsSelected(v: Volume, sum: Checksum, r: Option<Uberblock>)
    requires Inv(v, sum) && |v.slots| >= 2 && IsSelected(v.slots, sum, r)
    ensures r == Some(v.current)
  {
    var n := |v.slots|;
    var at := v.current.txg % n;
    assert v.slots[Recent(v, 0).txg % n] == Some(Recent(v, 0));
    assert HoldsTrusted(v.slots, at, sum);
    if r.Some? {
      var k :| 0 <= k < n && HoldsTrusted(v.slots, k, sum) && v.slots[k] == r;
      assert r.value.txg == v.current.txg;
    }
  }

  lemma FormatIsOk(v: Volume, sum: Checksum)
    requires IsFormatted(v, sum)
    ensures Inv(v, sum)
  {
    assert forall k | 0 <= k < |v.slots| && HoldsTrusted(v.slots, k, sum) :: k == v.current.txg % |v.slots|;
  }

  lemma CompleteKeeps(v: Volume, u: Uberblock, v': Volume, sum: Checksum)
    requires Inv(v, sum) && |v.slots| >= 2 && Step(v, Complete(u), v', sum)
    ensures Inv(v', sum)
  {
    var n, slot := |v.slots|, v.current.NextSlot(|v.slots|);
    forall back | 0 <= back < n - 1 && back < |v'.completed|
      ensures v'.slots[Recent(v', back).txg % n] == Some(Recent(v', back))
    {
      if back > 0 {
        assert Recent(v', back) == Recent(v, back - 1);
        DifferentSlots(Recent(v, back - 1).txg, u.txg, n);
      }
    }
    forall k | 0 <= k < n && HoldsTrusted(v'.slots, k, sum)
      ensures v'.slots[k].value.txg <= u.txg && v'.slots[k].value.txg % n == k
    {
      if k != slot { assert HoldsTrusted(v.slots, k, sum); }
    }
  }

  lemma TornKeeps(v: Volume, e: Event, v': Volume, sum: Checksum)
    requires Inv(v, sum) && |v.slots| >= 2 && e.Torn? && Step(v, e, v', sum)
    ensures Inv(v', sum) && v'.current == v.current
  {
    var n, slot := |v.slots|, v.current.NextSlot(|v.slots|);
    var mid := v.(slots := v'.slots);
    forall back | 0 <= back < n - 1 && back < |v.completed|
      ensures v'.slots[Recent(mid, back).txg % n] == Some(Recent(mid, back))
    {
      assert v.slots[Recent(v, back).txg % n] == Some(Recent(v, back)) && Recent(mid, back) == Recent(v, back);
      DifferentSlots(Recent(v, back).txg, e.u.txg, n);
    }
    forall k | 0 <= k < n && HoldsTrusted(v'.slots, k, sum)
      ensures v'.slots[k].value.txg <= v.current.txg && v'.slots[k].value.txg % n == k
    {
      assert HoldsTrusted(v.slots, k, sum);
    }
    assert Inv(mid, sum);
    NewestIsSelected(mid, sum, Some(v'.current));
  }

  ghost predicate IsRun(volumes: seq<Volume>, events: seq<Event>, sum: Checksum) {
    && |volumes| == |events| + 1 && IsFormatted(volumes[0], sum)
    && forall i | 0 <= i < |events| :: Step(volumes[i], events[i], volumes[i + 1], sum)
  }

  lemma {:induction false} RunKeeps(volumes: seq<Volume>, events: seq<Event>, sum: Checksum, i: nat)
    requires IsRun(volumes, events, sum) && |volumes[0].slots| >= 2 && i <= |events|
    ensures Inv(volumes[i], sum) && |volumes[i].slots| == |volumes[0].slots|
  {
    hide Inv, IsFormatted;
    if i == 0 {
      FormatIsOk(volumes[0], sum);
    } else {
      RunKeeps(volumes, events, sum, i - 1);
      if events[i - 1].Complete? {
        CompleteKeeps(volumes[i - 1], events[i - 1].u, volumes[i], sum);
      } else {
        TornKeeps(volumes[i - 1], events[i - 1], volumes[i], sum);
      }
    }
  }

  /**
    After any sequence of commits, each completed or torn by a crash, a mount selects the last
    commit that completed; the last `n - 1` completed are all still on disk.
    */
  lemma MountSelectsLastCompleted(volumes: seq<Volume>, events: seq<Event>, sum: Checksum, i: nat, r: Option<Uberblock>)
    requires IsRun(volumes, events, sum) && |volumes[0].slots| >= 2 && i <= |events|
    requires IsSelected(volumes[i].slots, sum, r)
    ensures var v := volumes[i];
            && |v.completed| > 0 && r == Some(v.completed[|v.completed| - 1])
            && forall back | 0 <= back < |v.slots| - 1 && back < |v.completed| :: Some(Recent(v, back)) in v.slots
  {
    RunKeeps(volumes, events, sum, i);
    NewestIsSelected(volumes[i], sum, r);
    forall back | 0 <= back < |volumes[i].slots| - 1 && back < |volumes[i].completed|
      ensures Some(Recent(volumes[i], back)) in volumes[i].slots
    {
      assert volumes[i].slots[Recent(volumes[i], back).txg % |volumes[i].slots|] == Some(Recent(volumes[i], back));
    }
  }

  /** The same of the source's four slots: the last three completed commits survive any crash. */
  lemma FourSlotsKeepThree(volumes: seq<Volume>, events: seq<Event>, sum: Checksum, i: nat)
    requires IsRun(volumes, events, sum) && |volumes[0].slots| == 4 && i <= |events|
    ensures var v := volumes[i];
            forall back | 0 <= back < 3 && back < |v.completed| :: Some(Recent(v, back)) in v.slots
  {
    RunKeeps(volumes, events, sum, i);
    var v := volumes[i];
    forall back | 0 <= back < 3 && back < |v.completed|
      ensures Some(Recent(v, back)) in v.slots
    {
      assert v.slots[Recent(v, back).txg % |v.slots|] == Some(Recent(v, back));
    }
  }

  // ----- how many slots are enough -------------------------------------------------------

  /** With `n` slots a volume can always be mounted after a torn commit. */
  ghost predicate SurvivesTornCommits(n: nat, sum: Checksum) {
    forall volumes: seq<Volume>, events: seq<Event>, u: Uberblock, left: Option<Uberblock> |
      IsRun(volumes, events, sum) && |volumes[0].slots| == n && IsTornAt(volumes[|events|], u, left, sum) ::
      !IsSelected(SlotsAfterTear(volumes[|events|], left), sum, None)
  }

  ghost predicate IsTornAt(v: Volume, u: Uberblock, left: Option<Uberblock>, sum: Checksum) {
    |v.slots| > 0 && IsNext(v.current, u, sum) && IsTornWrite(v.slots[v.current.NextSlot(|v.slots|)], left, sum)
  }

  function SlotsAfterTear(v: Volume, left: Option<Uberblock>): Slots {
    if |v.slots| == 0 then [] else v.slots[v.current.NextSlot(|v.slots|) := left]
  }

  /** Two slots are enough, and one is not: the protocol needs no more than that. */
  lemma TwoSlotsSufficeExactly(n: nat, sum: Checksum)
    requires n > 0
    ensures SurvivesTornCommits(n, sum) <==> n >= 2
  {
    if n >= 2 {
      forall volumes: seq<Volume>, events: seq<Event>, u: Uberblock, left: Option<Uberblock> |
        IsRun(volumes, events, sum) && |volumes[0].slots| == n && IsTornAt(volumes[|events|], u, left, sum)
        ensures !IsSelected(SlotsAfterTear(volumes[|events|], left), sum, None)
      {
        RunKeeps(volumes, events, sum, |events|);
        LastStaysOnDisk(volumes[|events|], u, left, sum);
      }
    } else {
      SingleSlotIsLost(sum);
    }
  }

  lemma LastStaysOnDisk(v: Volume, u: Uberblock, left: Option<Uberblock>, sum: Checksum)
    requires Inv(v, sum) && |v.slots| >= 2 && IsTornAt(v, u, left, sum)
    ensures !IsSelected(SlotsAfterTear(v, left), sum, None)
  {
    var n := |v.slots|;
    DifferentSlots(v.current.txg, u.txg, n);
    assert v.slots[Recent(v, 0).txg % n] == Some(Recent(v, 0));
    assert HoldsTrusted(SlotsAfterTear(v, left), v.current.txg % n, sum);
  }

  lemma SingleSlotIsLost(sum: Checksum)
    ensures !SurvivesTornCommits(1, sum)
  {
    var first := Uberblock(MAGIC, VERSION, 0, 0, sum(MAGIC, VERSION, 0, 0));
    var second := Uberblock(MAGIC, VERSION, 1, 0, sum(MAGIC, VERSION, 1, 0));
    var v := Volume([Some(first)], first, [first]);
    var volumes, events: seq<Event> := [v], [];
    assert IsRun(volumes, events, sum);
    assert IsTornAt(volumes[|events|], second, None, sum);
    assert IsSelected(SlotsAfterTear(volumes[|events|], None), sum, None);
  }
}
