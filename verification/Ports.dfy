/**
  The notification ring (`ipc.rs`, `Port`): one producer and one consumer, interleaved at their
  atomic loads and stores, against a bounded first-in first-out queue.
  */
module Ports {
  import opened Wrappers
  import opened Words
  import opened Capabilities

  const RING: nat := 256

  datatype Notification = Notification(tag: nat, payload: seq<nat>, from: nat)

  datatype IpcError = Denied | Overflow

  function WrappingAdd1(x: nat): nat { (x + 1) % U32_SIZE }

  /** What is in the shared memory of a port. */
  datatype Shared = Shared(ring: seq<Option<Notification>>, head: nat, tail: nat, dropped: nat) {
    predicate Valid() { |ring| == RING && head < U32_SIZE && tail < U32_SIZE && dropped < U32_SIZE }
  }

  /** How far the producer has come with `post`. */
  datatype Producer =
    | NotPosting
    | LoadedHead(note: Notification, head: nat)
    | LoadedTail(note: Notification, head: nat, tail: nat)
    | Written(note: Notification, head: nat)

  /** How far the consumer has come with `try_recv`. */
  datatype Consumer =
    | NotReceiving
    | HoldsTail(tail: nat)
    | SawMore(tail: nat)
    | Taken(tail: nat, note: Option<Notification>)

  /** What has happened so far; the code keeps none of it. */
  datatype History = History(
    accepted: seq<Notification>, received: seq<Notification>, seen: nat,
    posts: nat, overflowed: nat, reported: nat)

  datatype State = State(shared: Shared, producer: Producer, consumer: Consumer, history: History)

  datatype Step =
    | PostLoadHead(note: Notification)
    | PostLoadTail
    | PostDrop
    | PostWrite
    | PostPublish
    | RecvLoadTail
    | RecvLoadHead
    | RecvTake
    | RecvAdvance
    | TakeDrops

  /** The test in `post`: as many notes in the ring as it has slots. */
  predicate LooksFull(head: nat, tail: nat)
    requires head < U32_SIZE && tail < U32_SIZE
  {
    WrappingSub32(head, tail) >= RING
  }

  /** One atomic access by the producer or the consumer. */
  ghost predicate Next(s: State, step: Step, s': State) {
    var m, p, c, h := s.shared, s.producer, s.consumer, s.history;
    && m.Valid()
    && match step
       case PostLoadHead(note) =>
         p.NotPosting? && s' == s.(producer := LoadedHead(note, m.head), history := h.(posts := h.posts + 1))
       case PostLoadTail =>
         p.LoadedHead? && s' == s.(producer := LoadedTail(p.note, p.head, m.tail), history := h.(seen := |h.received|))
       case PostDrop =>
         && p.LoadedTail? && p.head < U32_SIZE && p.tail < U32_SIZE && LooksFull(p.head, p.tail)
         && s' == s.(producer := NotPosting, shared := m.(dropped := WrappingAdd1(m.dropped)),
                     history := h.(overflowed := h.overflowed + 1))
       case PostWrite =>
         && p.LoadedTail? && p.head < U32_SIZE && p.tail < U32_SIZE && !LooksFull(p.head, p.tail)
         && s' == s.(producer := Written(p.note, p.head), shared := m.(ring := m.ring[p.head % RING := Some(p.note)]))
       case PostPublish =>
         && p.Written?
         && s' == s.(producer := NotPosting, shared := m.(head := WrappingAdd1(p.head)),
                     history := h.(accepted := h.accepted + [p.note]))
       case RecvLoadTail =>
         c.NotReceiving? && s' == s.(consumer := HoldsTail(m.tail))
       case RecvLoadHead =>
         c.HoldsTail? && s' == s.(consumer := if c.tail == m.head then NotReceiving else SawMore(c.tail))
       case RecvTake =>
         && c.SawMore?
         && s' == s.(consumer := Taken(c.tail, m.ring[c.tail % RING]),
                     shared := m.(ring := m.ring[c.tail % RING := None]))
       case RecvAdvance =>
         && c.Taken?
         && s' == s.(consumer := NotReceiving, shared := m.(tail := WrappingAdd1(c.tail)),
                     history := h.(received := h.received + if c.note.Some? then [c.note.value] else []))
       case TakeDrops =>
         s' == s.(shared := m.(dropped := 0), history := h.(reported := h.reported + m.dropped))
  }

  function Initial(): State {
    State(Shared(seq(RING, _ => None), 0, 0, 0), NotPosting, NotReceiving, History([], [], 0, 0, 0, 0))
  }

  // ----- the invariant -------------------------------------------------------------------

  /** Counts that differ by at most a ring, cut to 32 bits and subtracted, give their difference. */
  lemma WrappedDifference(a: nat, b: nat)
    requires b <= a <= b + RING
    ensures WrappingSub32(a % U32_SIZE, b % U32_SIZE) == a - b
    ensures a % U32_SIZE == b % U32_SIZE <==> a == b
  {
    var qa, qb := a / U32_SIZE, b / U32_SIZE;
    assert a == qa * U32_SIZE + a % U32_SIZE && b == qb * U32_SIZE + b % U32_SIZE;
    assert qa == qb || qa == qb + 1;
  }

  lemma SlotOfCount(n: nat)
    ensures n % U32_SIZE % RING == n % RING
    ensures WrappingAdd1(n % U32_SIZE) == (n + 1) % U32_SIZE
  {
    var q := n / U32_SIZE;
    assert n == q * (0x100_0000 * RING) + n % U32_SIZE;
  }

  /** Slots of different counts within one ring are different. */
  lemma SlotsDiffer(i: nat, j: nat)
    requires i < j < i + RING
    ensures i % RING != j % RING
  {
  }

  /** The slot that count `n` uses. */
  function SlotAt(ring: seq<Option<Notification>>, n: nat): Option<Notification>
    requires |ring| == RING
  {
    ring[n % RING]
  }

  /** The ring holds what was accepted and not taken. */
  ghost predicate Holds(ring: seq<Option<Notification>>, accepted: seq<Notification>, from: nat) {
    && |ring| == RING && from <= |accepted| <= from + RING
    && forall n | from <= n < |accepted| :: SlotAt(ring, n) == Some(accepted[n])
  }

  /** How many notes have left the ring: the consumer takes a note before it moves the tail. */
  function TakenCount(s: State): nat {
    |s.history.received| + if s.consumer.Taken? then 1 else 0
  }

  ghost predicate CountsOk(s: State) {
    var m, h := s.shared, s.history;
    && m.Valid()
    && m.head == |h.accepted| % U32_SIZE && m.tail == |h.received| % U32_SIZE
    && |h.received| <= |h.accepted| <= |h.received| + RING
    && h.received <= h.accepted
    && h.posts == |h.accepted| + h.overflowed + (if s.producer.NotPosting? then 0 else 1)
    && (h.reported + m.dropped) % U32_SIZE == h.overflowed % U32_SIZE
  }

  ghost predicate ProducerOk(s: State) {
    var p, h := s.producer, s.history;
    match p
    case NotPosting => true
    case LoadedHead(_, head) => head == |h.accepted| % U32_SIZE
    case LoadedTail(_, head, tail) =>
      && head == |h.accepted| % U32_SIZE && tail == h.seen % U32_SIZE
      && h.seen <= |h.received| && |h.accepted| <= h.seen + RING
    case Written(note, head) =>
      && head == |h.accepted| % U32_SIZE && |h.accepted| < |h.received| + RING
      && |s.shared.ring| == RING && SlotAt(s.shared.ring, |h.accepted|) == Some(note)
  }

  ghost predicate ConsumerOk(s: State) {
    var c, h := s.consumer, s.history;
    match c
    case NotReceiving => true
    case HoldsTail(tail) => tail == |h.received| % U32_SIZE
    case SawMore(tail) => tail == |h.received| % U32_SIZE && |h.received| < |h.accepted|
    case Taken(tail, note) =>
      tail == |h.received| % U32_SIZE && |h.received| < |h.accepted| && note == Some(h.accepted[|h.received|])
  }

  ghost predicate Inv(s: State) {
    && CountsOk(s)
    && Holds(s.shared.ring, s.history.accepted, TakenCount(s))
    && ProducerOk(s) && ConsumerOk(s)
  }

  // ----- the bounded queue it refines ----------------------------------------------------

  /** What the outside sees of one step. */
  datatype Effect = Nothing | Accept(note: Notification) | Refuse | Deliver(note: Notification) | FoundEmpty

  /** A bounded first-in first-out queue. */
  ghost predicate FifoStep(q: seq<Notification>, e: Effect, q': seq<Notification>) {
    match e
    case Nothing => q' == q
    case Accept(note) => |q| < 256 && q' == q + [note]
    case Refuse => |q| == 256 && q' == q
    case Deliver(note) => q != [] && note == q[0] && q' == q[1..]
    case FoundEmpty => q == [] && q' == q
  }

  /** Accepted and not yet received. */
  function Queue(s: State): seq<Notification>
    requires |s.history.received| <= |s.history.accepted|
  {
    s.history.accepted[|s.history.received|..]
  }

  /** Where each call takes effect: a refused post when it reads the tail, an empty read when it reads the head. */
  function EffectOf(s: State, step: Step): Effect
    requires s.shared.Valid()
  {
    match step
    case PostLoadTail =>
      if s.producer.LoadedHead? && s.producer.head < U32_SIZE && LooksFull(s.producer.head, s.shared.tail)
      then Refuse else Nothing
    case PostPublish => if s.producer.Written? then Accept(s.producer.note) else Nothing
    case RecvLoadHead => if s.consumer.HoldsTail? && s.consumer.tail == s.shared.head then FoundEmpty else Nothing
    case RecvAdvance => if s.consumer.Taken? && s.consumer.note.Some? then Deliver(s.consumer.note.value) else Nothing
    case _ => Nothing
  }

  // ----- every step keeps the invariant and is a step of the queue -----------------------

  lemma InitialIsOk()
    ensures Inv(Initial()) && Queue(Initial()) == []
  {
  }

  lemma LoadStep(s: State, step: Step, s': State)
    requires Inv(s) && Next(s, step, s') && (step.PostLoadHead? || step.PostLoadTail? || step.RecvLoadTail?)
    ensures Inv(s') && FifoStep(Queue(s), EffectOf(s, step), Queue(s'))
  {
    WrappedDifference(|s.history.accepted|, |s.history.received|);
    hide WrappingSub32, SlotAt;
  }

  lemma CountingStep(s: State, step: Step, s': State)
    requires Inv(s) && Next(s, step, s') && (step.PostDrop? || step.TakeDrops?)
    ensures Inv(s') && FifoStep(Queue(s), EffectOf(s, step), Queue(s'))
  {
    DropsAddUp(s.history.reported, s.shared.dropped, s.history.overflowed);
    hide LooksFull, Holds, WrappingAdd1, SlotAt;
  }

  lemma DropsAddUp(reported: nat, dropped: nat, overflowed: nat)
    requires (reported + dropped) % U32_SIZE == overflowed % U32_SIZE && dropped < U32_SIZE
    ensures (reported + WrappingAdd1(dropped)) % U32_SIZE == (overflowed + 1) % U32_SIZE
    ensures WrappingAdd1(dropped) < U32_SIZE
  {
    SameRemainderNext(reported + dropped, overflowed);
    if dropped + 1 == U32_SIZE {
      WholeTurn(reported);
    }
  }

  lemma WholeTurn(a: nat)
    ensures (a + U32_SIZE) % U32_SIZE == a % U32_SIZE
  {
  }

  lemma SameRemainderNext(a: nat, b: nat)
    requires a % U32_SIZE == b % U32_SIZE
    ensures (a + 1) % U32_SIZE == (b + 1) % U32_SIZE
  {
    NextRemainder(a);
    NextRemainder(b);
  }

  lemma NextRemainder(a: nat)
    ensures (a + 1) % U32_SIZE == (a % U32_SIZE + 1) % U32_SIZE
  {
  }

  lemma WriteStep(s: State, s': State)
    requires Inv(s) && Next(s, PostWrite, s')
    ensures Inv(s') && FifoStep(Queue(s), EffectOf(s, PostWrite), Queue(s'))
  {
    var h := s.history;
    WrappedDifference(|h.accepted|, h.seen);
    SlotOfCount(|h.accepted|);
    hide WrappingSub32;
    forall n | TakenCount(s) <= n < |h.accepted|
      ensures SlotAt(s'.shared.ring, n) == Some(h.accepted[n])
    {
      SlotsDiffer(n, |h.accepted|);
      assert SlotAt(s.shared.ring, n) == Some(h.accepted[n]);
    }
  }

  lemma PublishStep(s: State, s': State)
    requires Inv(s) && Next(s, PostPublish, s')
    ensures Inv(s') && FifoStep(Queue(s), EffectOf(s, PostPublish), Queue(s'))
  {
    SlotOfCount(|s.history.accepted|);
    hide SlotAt, WrappingAdd1;
  }

  lemma LookStep(s: State, s': State)
    requires Inv(s) && Next(s, RecvLoadHead, s')
    ensures Inv(s') && FifoStep(Queue(s), EffectOf(s, RecvLoadHead), Queue(s'))
  {
    WrappedDifference(|s.history.accepted|, |s.history.received|);
    hide WrappingSub32, SlotAt;
  }

  lemma TakeStep(s: State, s': State)
    requires Inv(s) && Next(s, RecvTake, s')
    ensures Inv(s') && FifoStep(Queue(s), EffectOf(s, RecvTake), Queue(s'))
  {
    var h, ring := s.history, s.shared.ring;
    var t := |h.received|;
    SlotOfCount(t);
    assert SlotAt(ring, t) == Some(h.accepted[t]);
    forall n | t < n < |h.accepted|
      ensures SlotAt(s'.shared.ring, n) == Some(h.accepted[n])
    {
      SlotsDiffer(t, n);
      assert SlotAt(ring, n) == Some(h.accepted[n]);
    }
    if s.producer.Written? {
      SlotsDiffer(t, |h.accepted|);
    }
  }

  lemma AdvanceStep(s: State, s': State)
    requires Inv(s) && Next(s, RecvAdvance, s')
    ensures Inv(s') && FifoStep(Queue(s), EffectOf(s, RecvAdvance), Queue(s'))
  {
    SlotOfCount(|s.history.received|);
    hide SlotAt, WrappingAdd1;
  }

  /** In every interleaving, each atomic access keeps the invariant and is one step of the bounded queue. */
  lemma StepRefinesFifo(s: State, step: Step, s': State)
    requires Inv(s) && Next(s, step, s')
    ensures Inv(s') && FifoStep(Queue(s), EffectOf(s, step), Queue(s'))
  {
    hide Inv, FifoStep, Next;
    match step {
      case PostWrite => WriteStep(s, s');
      case PostPublish => PublishStep(s, s');
      case RecvLoadHead => LookStep(s, s');
      case RecvTake => TakeStep(s, s');
      case RecvAdvance => AdvanceStep(s, s');
      case PostDrop => CountingStep(s, step, s');
      case TakeDrops => CountingStep(s, step, s');
      case _ => LoadStep(s, step, s');
    }
  }

  // ----- runs ----------------------------------------------------------------------------

  ghost predicate IsRun(states: seq<State>, steps: seq<Step>) {
    && |states| == |steps| + 1 && states[0] == Initial()
    && forall i | 0 <= i < |steps| :: Next(states[i], steps[i], states[i + 1])
  }

  lemma {:induction false} RunIsOk(states: seq<State>, steps: seq<Step>, i: nat)
    requires IsRun(states, steps) && i <= |steps|
    ensures Inv(states[i])
  {
    hide Inv, Next;
    if i == 0 {
      InitialIsOk();
    } else {
      RunIsOk(states, steps, i - 1);
      StepRefinesFifo(states[i - 1], steps[i - 1], states[i]);
    }
  }

  /**
    Over every run of one producer and one consumer: what was received is a prefix of what was
    accepted, never more than a ring behind, across any number of wraps of the 32-bit indices;
    every permitted post was accepted, refused, or is still under way; and the drop counter,
    with what was already read from it, is the number of refusals up to its width.
    */
  lemma RunIsFifo(states: seq<State>, steps: seq<Step>, i: nat)
    requires IsRun(states, steps) && i <= |steps|
    ensures var s := states[i]; var h := s.history;
            && h.received <= h.accepted && |h.accepted| - |h.received| <= 256
            && s.shared.Valid() && WrappingSub32(s.shared.head, s.shared.tail) == |h.accepted| - |h.received|
            && h.posts == |h.accepted| + h.overflowed + (if s.producer.NotPosting? then 0 else 1)
            && (h.reported + s.shared.dropped) % U32_SIZE == h.overflowed % U32_SIZE
  {
    hide Next;
    RunIsOk(states, steps, i);
    WrappedDifference(|states[i].history.accepted|, |states[i].history.received|);
  }

  /**
    Step by step the run is one of the bounded queue: posts are refused only when it is full,
    reads find nothing only when it is empty.
    */
  lemma RunRefinesFifo(states: seq<State>, steps: seq<Step>, i: nat)
    requires IsRun(states, steps) && i < |steps|
    ensures Inv(states[i]) && Inv(states[i + 1])
    ensures FifoStep(Queue(states[i]), EffectOf(states[i], steps[i]), Queue(states[i + 1]))
  {
    hide FifoStep, Next, EffectOf, Inv;
    RunIsOk(states, steps, i);
    StepRefinesFifo(states[i], steps[i], states[i + 1]);
  }

  /** A read gives up exactly when the queue is empty at the moment it reads the head. */
  lemma GivesUpExactly(states: seq<State>, steps: seq<Step>, i: nat)
    requires IsRun(states, steps) && i < |steps| && steps[i].RecvLoadHead?
    ensures |states[i].history.received| <= |states[i].history.accepted|
    ensures states[i + 1].consumer.NotReceiving? <==> Queue(states[i]) == []
    ensures states[i + 1].consumer.NotReceiving? || states[i + 1].consumer.SawMore?
  {
    RunIsOk(states, steps, i);
    assert Next(states[i], steps[i], states[i + 1]);
    WrappedDifference(|states[i].history.accepted|, |states[i].history.received|);
    hide WrappingSub32, Holds, ProducerOk;
  }

  /** How many of the first `n` steps were refusals of the queue. */
  function Refusals(states: seq<State>, steps: seq<Step>, n: nat): nat
    requires n <= |steps| <= |states| && forall k | 0 <= k < n :: states[k].shared.Valid()
  {
    if n == 0 then 0
    else Refusals(states, steps, n - 1) + if EffectOf(states[n - 1], steps[n - 1]) == Refuse then 1 else 0
  }

  /** The producer has seen a full ring and not yet counted the drop. */
  predicate AboutToDrop(s: State) {
    s.producer.LoadedTail? && s.producer.head < U32_SIZE && s.producer.tail < U32_SIZE
    && LooksFull(s.producer.head, s.producer.tail)
  }

  /** Drops are refusals: over every run exactly as many notes are dropped as the bounded queue refused. */
  lemma {:induction false} DropsAreRefusals(states: seq<State>, steps: seq<Step>, n: nat)
    requires IsRun(states, steps) && n <= |steps|
    ensures forall k | 0 <= k < n :: states[k].shared.Valid()
    ensures Refusals(states, steps, n) ==
            states[n].history.overflowed + if AboutToDrop(states[n]) then 1 else 0
  {
    hide Inv, EffectOf, AboutToDrop, Next;
    if n == 0 {
      NothingDropped(states[0]);
    } else {
      DropsAreRefusals(states, steps, n - 1);
      assert Next(states[n - 1], steps[n - 1], states[n]);
      DropStep(states[n - 1], steps[n - 1], states[n]);
    }
  }

  lemma NothingDropped(s: State)
    requires s == Initial()
    ensures s.history.overflowed == 0 && !AboutToDrop(s)
  {
  }

  lemma DropStep(s: State, step: Step, s': State)
    requires Next(s, step, s')
    ensures s.shared.Valid()
    ensures s'.history.overflowed + (if AboutToDrop(s') then 1 else 0) ==
            s.history.overflowed + (if AboutToDrop(s) then 1 else 0) + if EffectOf(s, step) == Refuse then 1 else 0
  {
    hide LooksFull;
  }

  /** A read that finds the ring not empty always brings a note: the first one not yet received. */
  lemma NonEmptyReadYieldsNote(states: seq<State>, steps: seq<Step>, i: nat)
    requires IsRun(states, steps) && i < |steps| && steps[i].RecvAdvance?
    ensures var s := states[i];
            && s.consumer.Taken? && s.consumer.note.Some?
            && |s.history.received| < |s.history.accepted|
            && s.consumer.note.value == s.history.accepted[|s.history.received|]
  {
    hide Holds, ProducerOk;
    RunIsOk(states, steps, i);
    assert Next(states[i], steps[i], states[i + 1]);
  }

  // ----- undisturbed calls ---------------------------------------------------------------

  /** What a permitted `post` leaves in memory when nothing comes between its steps. */
  function Posted(m: Shared, note: Notification): Shared
    requires m.Valid()
  {
    if LooksFull(m.head, m.tail) then m.(dropped := WrappingAdd1(m.dropped))
    else m.(ring := m.ring[m.head % RING := Some(note)], head := WrappingAdd1(m.head))
  }

  /** What a permitted `try_recv` leaves in memory. */
  function Received(m: Shared): Shared
    requires m.Valid()
  {
    if m.tail == m.head then m
    else m.(ring := m.ring[m.tail % RING := None], tail := WrappingAdd1(m.tail))
  }

  /** The calls of the class are runs of the atomic steps. */
  lemma PostIsSteps(s: State, note: Notification) returns (s1: State, s2: State, s3: State, s4: State)
    requires Inv(s) && s.producer.NotPosting?
    ensures Next(s, PostLoadHead(note), s1) && Next(s1, PostLoadTail, s2)
    ensures if LooksFull(s.shared.head, s.shared.tail) then Next(s2, PostDrop, s4)
            else Next(s2, PostWrite, s3) && Next(s3, PostPublish, s4)
    ensures s4.shared == Posted(s.shared, note) && s4.producer.NotPosting?
  {
    var m := s.shared;
    s1 := s.(producer := LoadedHead(note, m.head), history := s.history.(posts := s.history.posts + 1));
    s2 := s1.(producer := LoadedTail(note, m.head, m.tail), history := s1.history.(seen := |s.history.received|));
    s3 := s2.(producer := Written(note, m.head), shared := m.(ring := m.ring[m.head % RING := Some(note)]));
    if LooksFull(m.head, m.tail) {
      s4 := s2.(producer := NotPosting, shared := m.(dropped := WrappingAdd1(m.dropped)),
                history := s2.history.(overflowed := s2.history.overflowed + 1));
    } else {
      s4 := s3.(producer := NotPosting, shared := s3.shared.(head := WrappingAdd1(m.head)),
                history := s3.history.(accepted := s3.history.accepted + [note]));
    }
    hide WrappingSub32;
  }

  lemma ReceiveIsSteps(s: State) returns (s1: State, s2: State, s3: State, s4: State)
    requires Inv(s) && s.consumer.NotReceiving?
    ensures Next(s, RecvLoadTail, s1) && Next(s1, RecvLoadHead, s2)
    ensures if s.shared.tail == s.shared.head then s4 == s2 else Next(s2, RecvTake, s3) && Next(s3, RecvAdvance, s4)
    ensures s4.shared == Received(s.shared) && s4.consumer.NotReceiving?
  {
    var m := s.shared;
    s1 := s.(consumer := HoldsTail(m.tail));
    if m.tail == m.head {
      s2 := s1.(consumer := NotReceiving);
      s3, s4 := s2, s2;
    } else {
      s2 := s1.(consumer := SawMore(m.tail));
      var note := m.ring[m.tail % RING];
      s3 := s2.(consumer := Taken(m.tail, note), shared := m.(ring := m.ring[m.tail % RING := None]));
      s4 := s3.(consumer := NotReceiving, shared := s3.shared.(tail := WrappingAdd1(m.tail)),
                history := s3.history.(received := s3.history.received + if note.Some? then [note.value] else []));
    }
    hide Inv;
  }

  class Port {
    const ring: array<Option<Notification>>
    var head: nat
    var tail: nat
    var dropped: nat
    var waiter: Option<nat>

    predicate Valid()
      reads this, ring
    {
      ring.Length == RING && Shared(ring[..], head, tail, dropped).Valid()
    }

    function Memory(): (m: Shared)
      reads this, ring
      requires Valid()
      ensures m.Valid()
    {
      Shared(ring[..], head, tail, dropped)
    }

    constructor ()
      ensures Valid() && fresh(ring) && Memory() == Initial().shared
    {
      ring := new Option<Notification>[RING](_ => None);
      head, tail, dropped, waiter := 0, 0, 0, None;
      new;
      assert ring[..] == Initial().shared.ring;
    }

    /** `post`; the thread to wake, if one waits, goes to the scheduler. */
    method Post(cap: Capability, note: Notification) returns (r: Result<(), IpcError>, wake: Option<nat>)
      requires Valid()
      modifies this, ring
      ensures Valid()
      ensures !cap.Permits(SEND) ==> r == Err(Denied) && wake == None && Memory() == old(Memory())
      ensures cap.Permits(SEND) ==>
                && Memory() == Posted(old(Memory()), note)
                && r == (if LooksFull(old(head), old(tail)) then Err(Overflow) else Ok(()))
                && wake == (if r.Ok? then waiter else None)
      ensures waiter == old(waiter)
    {
      if !cap.Permits(SEND) { return Err(Denied), None; }
      var h := head;
      var t := tail;
      if WrappingSub32(h, t) >= RING {
        dropped := WrappingAdd1(dropped);
        return Err(Overflow), None;
      }
      var slot := h % RING;
      ring[slot] := Some(note);
      head := WrappingAdd1(h);
      return Ok(()), waiter;
    }

    method TryRecv(cap: Capability) returns (r: Result<Option<Notification>, IpcError>)
      requires Valid()
      modifies this, ring
      ensures Valid()
      ensures !cap.Permits(RECEIVE) ==> r == Err(Denied) && Memory() == old(Memory())
      ensures cap.Permits(RECEIVE) ==>
                && Memory() == Received(old(Memory()))
                && r == Ok(if old(tail) == old(head) then None else old(ring[tail % RING]))
      ensures waiter == old(waiter)
    {
      if !cap.Permits(RECEIVE) { return Err(Denied); }
      var t := tail;
      if t == head { return Ok(None); }
      var slot := t % RING;
      var note := ring[slot];
      ring[slot] := None;
      tail := WrappingAdd1(t);
      r := Ok(note);
    }

    method TakeDropCount() returns (n: nat)
      requires Valid()
      modifies this
      ensures Valid() && n == old(dropped) && Memory() == old(Memory()).(dropped := 0) && waiter == old(waiter)
    {
      n := dropped;
      dropped := 0;
    }
  }
}
