/**
  What the frame allocator guarantees over whole runs: the order frames come out in, and that
  no frame is handed out twice or out of a reservation.
  */
module FrameRuns {
  import opened Wrappers
  import opened Frames

  datatype Call =
    | AddRegion(region: Region)
    | ReserveRegion(region: Region)
    | Alloc
    | AllocContiguous(n: nat, align: nat)
    | Free(addr: nat)
    | FreeContiguous(addr: nat, n: nat)

  datatype Answer = Count(n: nat) | Frame(r: Result<nat, FrameError>) | Done(u: Result<(), FrameError>)

  /** One call on the allocator, with its answer. */
  ghost predicate Step(s: State, call: Call, s': State, answer: Answer) {
    match call
    case AddRegion(region) => answer.Count? && AddStep(s, region, s', answer.n)
    case ReserveRegion(region) => answer.Count? && ReserveStep(s, region, s', answer.n)
    case Alloc => answer.Frame? && AllocStep(s, s', answer.r)
    case AllocContiguous(n, align) => answer.Frame? && AllocContiguousStep(s, n, align, s', answer.r)
    case Free(addr) => answer.Done? && FreeStep(s, addr, s', answer.u)
    case FreeContiguous(addr, n) => answer.Done? && FreeContiguousStep(s, addr, n, s', answer.u)
  }

  // ----- which frame comes next ----------------------------------------------------------

  /** No free frame lies below the hint. */
  ghost predicate HintOk(s: State) {
    forall f | f in s.free :: s.base + s.hint <= f
  }

  ghost predicate IsLowest(free: set<int>, f: int) {
    f in free && forall g | g in free :: f <= g
  }

  /**
    `alloc` is first-fit exactly when nothing is free below the word where it starts to look,
    or nothing is free from there on.
    */
  lemma NextFitIsFirstFitExactly(s: State, f: int)
    requires IsNextFit(s.free, s.SearchStart(), f)
    ensures IsLowest(s.free, f) <==>
            (forall g | g in s.free :: g >= s.SearchStart()) || (forall g | g in s.free :: g < s.SearchStart())
  {
  }

  /** Adding one frame that is managed. */
  lemma AddsFrame(s: State, f: nat, region: Region)
    requires f in s.Managed() && f !in s.free && region == RawRegion(f * PAGE_SIZE, PAGE_SIZE)
    ensures Step(s, AddRegion(region), s.(free := s.free + {f}), Count(1))
  {
    assert region.FirstInside() == f && region.EndInside() == f + 1;
    SingleFrame(f);
    AddedFrames(s, region);
    hide Range, LiesInside;
    assert Range(f, f + 1) * s.Managed() == {f};
  }

  /** Taking one frame that is the next fit. */
  lemma TakesFrame(s: State, f: nat)
    requires s.base <= f && IsNextFit(s.free, s.SearchStart(), f)
    ensures Step(s, Alloc, s.(free := s.free - {f}, hint := f + 1 - s.base), Frame(Ok(f * PAGE_SIZE)))
  {
    TakingIsAllocStep(s, f);
  }

  function OneFrame(f: nat): Region
    requires f < 256
  {
    RawRegion(f * PAGE_SIZE, PAGE_SIZE)
  }

  /** A new allocator of 256 frames, and what it becomes. */
  function Small(free: set<int>, hint: nat): State {
    State(0, 256, free, hint)
  }

  /**
    A run from a new allocator in which `add_region` frees frame 0 and `alloc` hands out 200: the
    hint is not rewound.
    */
  lemma AddRegionDoesNotRewindHint()
    ensures Step(Small({}, 0), AddRegion(OneFrame(127)), Small({127}, 0), Count(1))
    ensures Step(Small({127}, 0), AddRegion(OneFrame(200)), Small({127, 200}, 0), Count(1))
    ensures Step(Small({127, 200}, 0), Alloc, Small({200}, 128), Frame(Ok(127 * PAGE_SIZE)))
    ensures Step(Small({200}, 128), AddRegion(OneFrame(0)), Small({0, 200}, 128), Count(1))
    ensures Step(Small({0, 200}, 128), Alloc, Small({0}, 201), Frame(Ok(200 * PAGE_SIZE)))
    ensures !IsLowest({0, 200}, 200)
  {
    hide *;
    TwoFrames(127, 200);
    TwoFrames(0, 200);
    AddsToSmall({}, 0, 127, {127});
    AddsToSmall({127}, 0, 200, {127, 200});
    TakesFromSmall({127, 200}, 0, 127, {200});
    AddsToSmall({200}, 128, 0, {0, 200});
    TakesFromSmall({0, 200}, 128, 200, {0});
  }

  lemma TwoFrames(low: int, high: int)
    requires low < high
    ensures {} + {low} == {low} && {low} + {high} == {low, high} && {high} + {low} == {low, high}
    ensures {low, high} - {low} == {high} && {low, high} - {high} == {low}
    ensures forall from :: from <= low ==> IsNextFit({low, high}, from, low)
    ensures forall from :: low < from <= high ==> IsNextFit({low, high}, from, high)
    ensures !IsLowest({low, high}, high)
  {
    assert low in {low, high};
  }

  lemma AddsToSmall(free: set<int>, hint: nat, f: nat, after: set<int>)
    requires f < 256 && f !in free && after == free + {f}
    ensures Step(Small(free, hint), AddRegion(OneFrame(f)), Small(after, hint), Count(1))
  {
    hide Step, Range;
    AddsFrame(Small(free, hint), f, OneFrame(f));
  }

  lemma TakesFromSmall(free: set<int>, hint: nat, f: nat, after: set<int>)
    requires IsNextFit(free, hint / 64 * 64, f) && after == free - {f}
    ensures Step(Small(free, hint), Alloc, Small(after, f + 1), Frame(Ok(f * PAGE_SIZE)))
  {
    hide Step, IsNextFit;
    TakesFrame(Small(free, hint), f);
  }

  /** Adding three frames in a row. */
  lemma AddsThree(s: State, f: nat, region: Region)
    requires Range(f, f + 3) <= s.Managed() && s.free == {} && region == RawRegion(f * PAGE_SIZE, 3 * PAGE_SIZE)
    ensures Step(s, AddRegion(region), s.(free := {f, f + 1, f + 2}), Count(3))
  {
    RegionOfThree(f, region);
    RangeSize(f, f + 3);
    AddedFrames(s, region);
    hide Range, LiesInside, RawRegion.FirstInside, RawRegion.EndInside, State.Managed;
    ThreeInRange(f);
    assert Range(f, f + 3) * s.Managed() == Range(f, f + 3) && {} + Range(f, f + 3) == Range(f, f + 3);
  }

  lemma RegionOfThree(f: nat, region: Region)
    requires region == RawRegion(f * PAGE_SIZE, 3 * PAGE_SIZE)
    ensures region.FirstInside() == f && region.EndInside() == f + 3
  {
  }

  lemma ThreeInRange(f: nat)
    ensures {f, f + 1, f + 2} == Range(f, f + 3)
  {
    hide Range;
  }

  /** Where no candidate is free a refusal reports no run at all. */
  lemma ReportsNoRun(s: State, n: nat, alignFrames: nat)
    requires n > 0 && forall start :: IsCandidate(s, start, n, AtLeastOne(alignFrames)) ==> start !in s.free
    ensures Step(s, AllocContiguous(n, alignFrames), s, Frame(Err(Fragmented(n, 0))))
  {
    forall start, k: nat | IsCandidate(s, start, n, AtLeastOne(alignFrames)) && IsFreeRun(s.free, start, k)
      ensures k == 0
    {
      assert k > 0 ==> start in s.free;
    }
  }

  lemma ThreeIsLongest(s: State, f: nat)
    requires s.base <= f && f + 3 <= s.base + s.count && s.free == {f, f + 1, f + 2}
    ensures IsLongestRun(s, 3)
  {
    assert IsFreeRun(s.free, f, 3);
    forall start, n: nat | IsFreeRun(s.free, start, n)
      ensures n <= 3
    {
      assert n > 0 ==> start in s.free;
      assert n > 3 ==> start + 3 in s.free;
    }
  }

  /** From a new allocator: frames 1 to 3 are freed, four aligned frames are refused, and no run is reported. */
  lemma RefusalMissesUnalignedRun()
    ensures var s0, s := State(0, 8, {}, 0), State(0, 8, {1, 2, 3}, 0);
            && Step(s0, AddRegion(RawRegion(PAGE_SIZE, 3 * PAGE_SIZE)), s, Count(3))
            && Step(s, AllocContiguous(4, 4), s, Frame(Err(Fragmented(4, 0)))) && IsLongestRun(s, 3)
  {
    hide Step;
    var s0, s := State(0, 8, {}, 0), State(0, 8, {1, 2, 3}, 0);
    AddsThree(s0, 1, RawRegion(PAGE_SIZE, 3 * PAGE_SIZE));
    ThreeIsLongest(s, 1);
    hide IsLongestRun;
    OnlyMultiplesOfFour(s);
    ReportsNoRun(s, 4, 4);
  }

  lemma OnlyMultiplesOfFour(s: State)
    requires s == State(0, 8, {1, 2, 3}, 0)
    ensures forall start :: IsCandidate(s, start, 4, AtLeastOne(4)) ==> start !in s.free
  {
    forall start | IsCandidate(s, start, 4, AtLeastOne(4))
      ensures start == 0 || start == 4
    {
    }
  }

  /** The same at alignment 1: frames 5 to 7 are free, but four frames from there would leave what is managed. */
  lemma RefusalMissesRunNearEnd()
    ensures var s0, s := State(0, 8, {}, 0), State(0, 8, {5, 6, 7}, 0);
            && Step(s0, AddRegion(RawRegion(5 * PAGE_SIZE, 3 * PAGE_SIZE)), s, Count(3))
            && Step(s, AllocContiguous(4, 1), s, Frame(Err(Fragmented(4, 0)))) && IsLongestRun(s, 3)
  {
    hide Step;
    var s0, s := State(0, 8, {}, 0), State(0, 8, {5, 6, 7}, 0);
    AddsThree(s0, 5, RawRegion(5 * PAGE_SIZE, 3 * PAGE_SIZE));
    ThreeIsLongest(s, 5);
    hide IsLongestRun;
    ReportsNoRun(s, 4, 1);
  }

  /** Every call but `add_region` keeps the hint below all free frames; `add_region` does while the hint is 0. */
  lemma StepKeepsHint(s: State, call: Call, s': State, answer: Answer)
    requires Step(s, call, s', answer) && HintOk(s) && s.free <= s.Managed()
    requires call.AddRegion? ==> s.hint == 0
    ensures HintOk(s') && s'.free <= s'.Managed() && s'.Managed() == s.Managed()
    ensures call.AddRegion? || call.ReserveRegion? ==> s'.hint == s.hint
    ensures call.Alloc? && answer.r.Ok? ==> IsLowest(s.free, answer.r.value / PAGE_SIZE)
  {
    hide Range;
    match call {
      case AddRegion(region) =>
      case ReserveRegion(region) =>
      case Alloc =>
      case AllocContiguous(n, align) =>
      case Free(addr) =>
      case FreeContiguous(addr, n) =>
    }
  }

  // ----- ownership -----------------------------------------------------------------------

  /** The allocator together with what its callers hold and what was reserved. */
  datatype Ledger = Ledger(s: State, live: set<int>, reserved: seq<Region>)

  function FramesAt(addr: nat, n: nat): set<int> {
    Range(addr / PAGE_SIZE, addr / PAGE_SIZE + n)
  }

  /** The frames a call hands out or takes back. */
  function HandedOut(call: Call, answer: Answer): set<int> {
    if answer.Frame? && answer.r.Ok? then
      if call.AllocContiguous? then FramesAt(answer.r.value, call.n) else FramesAt(answer.r.value, 1)
    else {}
  }

  function TakenBack(call: Call, answer: Answer): set<int> {
    if answer.Done? && answer.u.Ok? then
      match call
      case Free(addr) => FramesAt(addr, 1)
      case FreeContiguous(addr, n) => FramesAt(addr, n)
      case _ => {}
    else {}
  }

  /** The order a boot follows: regions first, then reservations, then allocation. */
  datatype Phase = Adding | Reserving | Running

  predicate Allowed(phase: Phase, call: Call) {
    match call
    case AddRegion(_) => phase.Adding?
    case ReserveRegion(_) => !phase.Running?
    case _ => true
  }

  function PhaseAfter(phase: Phase, call: Call): Phase {
    match call
    case AddRegion(_) => Adding
    case ReserveRegion(_) => Reserving
    case _ => Running
  }

  /** A call by a kernel that follows the boot order and frees only what it holds. */
  ghost predicate LedgerStep(l: Ledger, phase: Phase, call: Call, answer: Answer, l': Ledger) {
    && Allowed(phase, call)
    && Step(l.s, call, l'.s, answer)
    && TakenBack(call, answer) <= l.live
    && l'.live == (l.live + HandedOut(call, answer)) - TakenBack(call, answer)
    && l'.reserved == if call.ReserveRegion? then l.reserved + [call.region] else l.reserved
  }

  /** Frame `f` shares no byte with any reservation. */
  ghost predicate Untouched(reserved: seq<Region>, f: int) {
    forall i | 0 <= i < |reserved| :: !SharesByte(f, reserved[i])
  }

  /** Free, live and reserved frames never meet. */
  ghost predicate Apart(l: Ledger) {
    && l.s.free <= l.s.Managed() && l.live <= l.s.Managed() && l.live !! l.s.free
    && (forall f | f in l.s.free + l.live :: Untouched(l.reserved, f))
  }

  /** And the hint is below what is free. */
  ghost predicate LedgerOk(l: Ledger, phase: Phase) {
    && Apart(l) && HintOk(l.s)
    && (phase.Running? || (l.s.hint == 0 && l.live == {}))
    && (phase.Adding? ==> l.reserved == [])
  }

  /**
    Out of that order: an `add_region` at any time keeps free, live and reserved frames apart
    exactly when no managed frame that lies in the region is live or touched by a reservation.
    */
  lemma LateAddKeepsApartExactly(l: Ledger, region: Region, answer: Answer, l': Ledger)
    requires Apart(l) && Step(l.s, AddRegion(region), l'.s, answer)
    requires l'.live == l.live && l'.reserved == l.reserved
    ensures Apart(l') <==>
            forall f | f in l.s.Managed() && LiesInside(f, region) :: f !in l.live && Untouched(l.reserved, f)
  {
    hide Range, Untouched, LiesInside;
    var added := set f | f in l.s.Managed() && LiesInside(f, region);
    assert l'.s.free == l.s.free + added && l'.s.Managed() == l.s.Managed();
    hide Step;
    if Apart(l') {
      forall f | f in added
        ensures f !in l.live && Untouched(l.reserved, f)
      {
        assert f in l'.s.free && f in l'.s.free + l'.live;
      }
    }
    forall f | f in l.s.free + l.live
      ensures Untouched(l.reserved, f)
    {
    }
  }

  /** No frame that holds a byte of a reservation is free once it is made. */
  lemma ReservationCoversBytes(s: State, region: Region, s': State, reserved: nat, b: nat, f: int)
    requires s.free <= s.Managed() && ReserveStep(s, region, s', reserved)
    requires ByteOfRegion(b, region) && ByteOfFrame(b, f)
    ensures f !in s'.free
  {
    hide Range;
    assert SharesByte(f, region);
  }

  /** A reservation of no bytes still withholds a frame, unless it starts on a frame boundary. */
  lemma EmptyReservationExactly(region: Region)
    requires region.len == 0
    ensures (exists f: nat :: IsWithheld(f, region)) <==> region.start % 4096 != 0
  {
    if region.start % 4096 != 0 {
      var f := region.start / 4096;
      assert IsWithheld(f, region);
    }
  }

  lemma ReserveKeepsLedger(l: Ledger, phase: Phase, region: Region, answer: Answer, l': Ledger)
    requires LedgerOk(l, phase) && LedgerStep(l, phase, ReserveRegion(region), answer, l')
    ensures LedgerOk(l', Reserving)
  {
    hide Range, SharesByte;
    forall f | f in l'.s.free
      ensures Untouched(l'.reserved, f)
    {
      assert f in l.s.free + l.live && Untouched(l.reserved, f);
    }
  }

  /**
    One call: ownership stays disjoint, what is handed out was free before (so nobody held it
    and no reservation touches it), and a single frame is the lowest one free.
    */
  lemma StepKeepsLedger(l: Ledger, phase: Phase, call: Call, answer: Answer, l': Ledger)
    requires LedgerOk(l, phase) && LedgerStep(l, phase, call, answer, l')
    ensures LedgerOk(l', PhaseAfter(phase, call))
    ensures HandedOut(call, answer) <= l.s.free
    ensures call.Alloc? && answer.r.Ok? ==> IsLowest(l.s.free, answer.r.value / PAGE_SIZE)
  {
    StepKeepsHint(l.s, call, l'.s, answer);
    match call {
      case AddRegion(region) =>
        hide Range;
      case ReserveRegion(region) =>
        ReserveKeepsLedger(l, phase, region, answer, l');
      case _ =>
        HandOutIsFree(l.s, call, l'.s, answer);
        ExchangeKeepsLedger(l, phase, call, answer, l');
    }
  }

  lemma ExchangeKeepsLedger(l: Ledger, phase: Phase, call: Call, answer: Answer, l': Ledger)
    requires LedgerOk(l, phase) && LedgerStep(l, phase, call, answer, l')
    requires !call.AddRegion? && !call.ReserveRegion?
    requires HandedOut(call, answer) <= l.s.free
    requires l'.s.free == (l.s.free - HandedOut(call, answer)) + TakenBack(call, answer)
    requires HintOk(l'.s) && l'.s.free <= l'.s.Managed() && l'.s.Managed() == l.s.Managed()
    ensures LedgerOk(l', Running)
  {
    hide Range, Untouched, Step, HandedOut, TakenBack, HintOk;
    forall f | f in l'.s.free + l'.live
      ensures Untouched(l'.reserved, f)
    {
      assert f in l.s.free + l.live;
    }
  }

  /** What allocation and freeing do to the free set, in terms of what changes hands. */
  lemma HandOutIsFree(s: State, call: Call, s': State, answer: Answer)
    requires Step(s, call, s', answer) && !call.AddRegion? && !call.ReserveRegion?
    ensures HandedOut(call, answer) <= s.free
    ensures s'.free == (s.free - HandedOut(call, answer)) + TakenBack(call, answer)
  {
    match call {
      case Alloc =>
        if answer.r.Ok? { SingleFrame(answer.r.value / PAGE_SIZE); }
      case AllocContiguous(n, align) =>
      case Free(addr) =>
        SingleFrame(addr / PAGE_SIZE);
      case FreeContiguous(addr, n) =>
    }
  }

  lemma SingleFrame(f: int)
    ensures Range(f, f + 1) == {f}
  {
  }

  // ----- runs ----------------------------------------------------------------------------

  function PhaseAt(calls: seq<Call>): Phase {
    if calls == [] then Adding else PhaseAfter(PhaseAt(calls[..|calls| - 1]), calls[|calls| - 1])
  }

  /** A run of calls from an allocator that starts fully used. */
  ghost predicate IsRun(ledgers: seq<Ledger>, calls: seq<Call>, answers: seq<Answer>) {
    && |ledgers| == |calls| + 1 && |answers| == |calls|
    && ledgers[0].s.free == {} && ledgers[0].s.hint == 0 && ledgers[0].live == {} && ledgers[0].reserved == []
    && forall i | 0 <= i < |calls| :: LedgerStep(ledgers[i], PhaseAt(calls[..i]), calls[i], answers[i], ledgers[i + 1])
  }

  lemma {:induction false} RunKeepsLedger(ledgers: seq<Ledger>, calls: seq<Call>, answers: seq<Answer>, i: nat)
    requires IsRun(ledgers, calls, answers) && i <= |calls|
    ensures LedgerOk(ledgers[i], PhaseAt(calls[..i]))
  {
    if i > 0 {
      RunKeepsLedger(ledgers, calls, answers, i - 1);
      assert calls[..i][..i - 1] == calls[..i - 1];
      StepKeepsLedger(ledgers[i - 1], PhaseAt(calls[..i - 1]), calls[i - 1], answers[i - 1], ledgers[i]);
    }
  }

  /**
    Over any run in boot order that frees only live frames: a frame that is handed out is not
    live at that moment, shares no byte with a reservation, and, when asked for singly, is the
    lowest free frame; and single frames run out exactly when none is free.
    */
  lemma RunHandsOutSoundly(ledgers: seq<Ledger>, calls: seq<Call>, answers: seq<Answer>, i: nat)
    requires IsRun(ledgers, calls, answers) && i < |calls|
    ensures HandedOut(calls[i], answers[i]) !! ledgers[i].live
    ensures forall f | f in HandedOut(calls[i], answers[i]) :: Untouched(ledgers[i].reserved, f)
    ensures calls[i].Alloc? ==> answers[i].Frame? && (answers[i].r.Err? <==> ledgers[i].s.free == {})
    ensures calls[i].Alloc? && answers[i].r.Ok? ==> IsLowest(ledgers[i].s.free, answers[i].r.value / PAGE_SIZE)
  {
    RunKeepsLedger(ledgers, calls, answers, i);
    hide LedgerOk, Untouched;
    StepKeepsLedger(ledgers[i], PhaseAt(calls[..i]), calls[i], answers[i], ledgers[i + 1]);
    LedgerSeparates(ledgers[i], PhaseAt(calls[..i]), HandedOut(calls[i], answers[i]));
  }

  /** Some region added by the first `n` calls holds every byte of frame `f`. */
  ghost predicate WasAdded(calls: seq<Call>, n: nat, f: int) {
    exists j :: 0 <= j < n && j < |calls| && calls[j].AddRegion? && LiesInside(f, calls[j].region)
  }

  lemma {:induction false} OnlyAddedFrames(ledgers: seq<Ledger>, calls: seq<Call>, answers: seq<Answer>, n: nat, f: int)
    requires IsRun(ledgers, calls, answers) && n <= |calls| && f in ledgers[n].s.free + ledgers[n].live
    ensures WasAdded(calls, n, f)
  {
    hide LiesInside, Range, LedgerOk;
    if n > 0 {
      RunKeepsLedger(ledgers, calls, answers, n - 1);
      var l, l', call, answer := ledgers[n - 1], ledgers[n], calls[n - 1], answers[n - 1];
      OneCallAdds(l, PhaseAt(calls[..n - 1]), call, answer, l', f);
      if call.AddRegion? && LiesInside(f, call.region) {
        assert WasAdded(calls, n, f);
      } else {
        OnlyAddedFrames(ledgers, calls, answers, n - 1, f);
        var j :| 0 <= j < n - 1 && calls[j].AddRegion? && LiesInside(f, calls[j].region);
      }
    }
  }

  /** What is free or live after a call was so before, or lies in the region just added. */
  lemma OneCallAdds(l: Ledger, phase: Phase, call: Call, answer: Answer, l': Ledger, f: int)
    requires LedgerOk(l, phase) && LedgerStep(l, phase, call, answer, l') && f in l'.s.free + l'.live
    ensures f in l.s.free + l.live || (call.AddRegion? && LiesInside(f, call.region))
  {
    hide Range, LiesInside, IsWithheld, Untouched, HintOk;
    if !call.AddRegion? && !call.ReserveRegion? { HandOutIsFree(l.s, call, l'.s, answer); }
  }

  /** How many frames a call for memory asks for. */
  function Asked(call: Call): nat {
    if call.AllocContiguous? then call.n else 1
  }

  /** And every byte of memory that is handed out, from its address on, lies in a region that was added before. */
  lemma HandsOutAddedMemory(ledgers: seq<Ledger>, calls: seq<Call>, answers: seq<Answer>, i: nat, b: nat)
    requires IsRun(ledgers, calls, answers) && i < |calls|
    requires answers[i].Frame? && answers[i].r.Ok?
    requires answers[i].r.value <= b < answers[i].r.value + 4096 * Asked(calls[i])
    ensures exists j :: 0 <= j < i && calls[j].AddRegion? && ByteOfRegion(b, calls[j].region)
  {
    var f := b / 4096;
    AddressesAreAligned(ledgers[i].s, calls[i], ledgers[i + 1].s, answers[i], b);
    hide LedgerOk, HandedOut, Step;
    RunKeepsLedger(ledgers, calls, answers, i);
    StepKeepsLedger(ledgers[i], PhaseAt(calls[..i]), calls[i], answers[i], ledgers[i + 1]);
    OnlyAddedFrames(ledgers, calls, answers, i, f);
  }

  /** What is handed out starts on a frame boundary, so that its bytes are those of its frames. */
  lemma AddressesAreAligned(s: State, call: Call, s': State, answer: Answer, b: nat)
    requires Step(s, call, s', answer) && answer.Frame? && answer.r.Ok?
    requires answer.r.value <= b < answer.r.value + 4096 * Asked(call)
    ensures b / 4096 in HandedOut(call, answer) && ByteOfFrame(b, b / 4096)
  {
    hide Range, IsNextFit, IsFreeRun, Fits;
  }

  lemma LedgerSeparates(l: Ledger, phase: Phase, frames: set<int>)
    requires LedgerOk(l, phase) && frames <= l.s.free
    ensures frames !! l.live && forall f | f in frames :: Untouched(l.reserved, f)
  {
    hide Untouched;
    assert frames <= l.s.free + l.live;
  }

  // ----- giving back ---------------------------------------------------------------------

  /** What was handed out can be given back, which restores what was free; and only once. */
  lemma AllocThenFree(s: State, s1: State, addr: nat, s2: State, u: Result<(), FrameError>, s3: State,
                      again: Result<(), FrameError>)
    requires s.free <= s.Managed() && AllocStep(s, s1, Ok(addr))
    requires FreeStep(s1, addr, s2, u) && FreeStep(s2, addr, s3, again)
    ensures u == Ok(()) && s2.free == s.free
    ensures again == Err(DoubleFree(addr / 4096)) && s3 == s2
  {
    hide Range;
  }

  lemma AllocContiguousThenFree(s: State, n: nat, align: nat, s1: State, addr: nat, s2: State,
                                u: Result<(), FrameError>)
    requires s.free <= s.Managed() && AllocContiguousStep(s, n, align, s1, Ok(addr))
    requires FreeContiguousStep(s1, addr, n, s2, u)
    ensures u == Ok(()) && s2.free == s.free
  {
    hide Range;
    var first := addr / 4096;
    assert Range(first, first + n) <= s.free;
    assert forall f | first <= f < first + n :: f in Range(first, first + n) && f in s.Managed() && f !in s1.free;
    assert u.Ok? ==> u.value == ();
  }

  /** No alignment at all is an alignment of one frame. */
  lemma NoAlignmentIsOne(s: State, n: nat, s': State, r: Result<nat, FrameError>)
    ensures AllocContiguousStep(s, n, 0, s', r) <==> AllocContiguousStep(s, n, 1, s', r)
  {
    hide IsBestRun, Fits;
    assert AtLeastOne(0) == AtLeastOne(1);
  }

  /**
    Over any run what a caller holds it can give back, frame by frame or all at once; a frame that is
    free, or not managed, is refused, and nothing changes.
    */
  lemma RunFreesExactly(ledgers: seq<Ledger>, calls: seq<Call>, answers: seq<Answer>, i: nat)
    requires IsRun(ledgers, calls, answers) && i < |calls|
    ensures var l, l', call, answer := ledgers[i], ledgers[i + 1], calls[i], answers[i];
            && (call.Free? ==>
                  && answer.Done?
                  && (answer.u.Ok? <==> call.addr / 4096 in l.live)
                  && (answer.u == Err(DoubleFree(call.addr / 4096)) <==> call.addr / 4096 in l.s.free)
                  && (answer.u == Err(OutOfRange(call.addr / 4096)) <==> call.addr / 4096 !in l.s.Managed())
                  && (answer.u.Err? ==> l'.s == l.s))
            && (call.FreeContiguous? ==>
                  && answer.Done?
                  && (answer.u.Ok? <==>
                        forall f | call.addr / 4096 <= f < call.addr / 4096 + call.n :: f in l.live)
                  && (answer.u.Err? ==> l'.s == l.s))
  {
    RunKeepsLedger(ledgers, calls, answers, i);
    var l, l', call, answer := ledgers[i], ledgers[i + 1], calls[i], answers[i];
    assert LedgerStep(l, PhaseAt(calls[..i]), call, answer, l');
    if call.Free? { FreesLive(l, PhaseAt(calls[..i]), call.addr, answer, l'); }
    if call.FreeContiguous? { FreesLiveRange(l, PhaseAt(calls[..i]), call.addr, call.n, answer, l'); }
  }

  lemma FreesLive(l: Ledger, phase: Phase, addr: nat, answer: Answer, l': Ledger)
    requires LedgerOk(l, phase) && LedgerStep(l, phase, Free(addr), answer, l')
    ensures answer.Done? && (answer.u.Ok? <==> addr / 4096 in l.live)
    ensures answer.u == Err(DoubleFree(addr / 4096)) <==> addr / 4096 in l.s.free
    ensures answer.u == Err(OutOfRange(addr / 4096)) <==> addr / 4096 !in l.s.Managed()
    ensures answer.u.Err? ==> l'.s == l.s
  {
    hide Untouched, HintOk;
    SingleFrame(addr / 4096);
    hide Range;
  }

  lemma FreesLiveRange(l: Ledger, phase: Phase, addr: nat, n: nat, answer: Answer, l': Ledger)
    requires LedgerOk(l, phase) && LedgerStep(l, phase, FreeContiguous(addr, n), answer, l')
    ensures answer.Done? && (answer.u.Err? ==> l'.s == l.s)
    ensures answer.u.Ok? <==> forall f | addr / 4096 <= f < addr / 4096 + n :: f in l.live
  {
    hide Untouched, HintOk, Range;
    var first := addr / 4096;
    if answer.u.Ok? { assert FramesAt(addr, n) == Range(first, first + n); }
  }
}
