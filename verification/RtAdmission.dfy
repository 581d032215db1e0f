/**
  Real-time admission (`sched.rs`): a shared utilisation counter that any number of callers
  raise by compare-and-swap and lower by subtraction, in every interleaving.
  */
module RtAdmission {
  import opened Wrappers
  import opened Words
  import Arith

  const MILLION: nat := 1_000_000
  const RT_CEILING_PPM: nat := 700_000

  /** A declared budget and period, in nanoseconds. */
  datatype Demand = Demand(budget: u64, period: u64) {
    /** `budget / period` in parts per million, as the source computes it: saturated, then cut to 32 bits. */
    function Ppm(): (ppm: nat)
      requires period > 0
      ensures ppm < U32_SIZE
    {
      (if budget * MILLION <= MAX_U64 then budget * MILLION else MAX_U64) / period % U32_SIZE
    }

    /** The same without any limit on width. */
    function TruePpm(): nat
      requires period > 0
    {
      budget * MILLION / period
    }
  }

  datatype SchedError = RtAdmissionRefused(requested: nat, available: nat)

  /** What a caller of `admit_realtime` is doing: nothing, or holding a value it has loaded. */
  datatype Caller = Idle | Trying(demand: Demand, current: nat, since: nat)

  /** The counter, the callers, the demands admitted and not released, and how many steps were taken. */
  datatype State = State(counter: nat, callers: seq<Caller>, admitted: seq<Demand>, clock: nat)

  datatype Step =
    | Load(c: nat, demand: Demand)
    | Exchange(c: nat)
    | ExchangeFails(c: nat)
    | Refuse(c: nat)
    | Release(k: nat)

  function NewValue(c: Caller): nat
    requires c.Trying? && c.demand.period > 0
  {
    SaturatingAdd32(c.current, c.demand.Ppm())
  }

  ghost predicate IsTrying(s: State, c: nat) {
    c < |s.callers| && s.callers[c].Trying? && s.callers[c].demand.period > 0
  }

  /** One atomic step of one caller. A weak exchange may fail for no reason. */
  ghost predicate Next(s: State, step: Step, s': State) {
    s'.clock == s.clock + 1 &&
    match step
    case Load(c, demand) =>
      && c < |s.callers| && s.callers[c].Idle? && demand.period > 0
      && s' == s.(callers := s.callers[c := Trying(demand, s.counter, s.clock)], clock := s'.clock)
    case Exchange(c) =>
      && IsTrying(s, c) && NewValue(s.callers[c]) <= RT_CEILING_PPM && s.counter == s.callers[c].current
      && s' == State(NewValue(s.callers[c]), s.callers[c := Idle], s.admitted + [s.callers[c].demand], s'.clock)
    case ExchangeFails(c) =>
      && IsTrying(s, c) && NewValue(s.callers[c]) <= RT_CEILING_PPM
      && s' == s.(callers := s.callers[c := s.callers[c].(current := s.counter)], clock := s'.clock)
    case Refuse(c) =>
      && IsTrying(s, c) && NewValue(s.callers[c]) > RT_CEILING_PPM
      && s' == s.(callers := s.callers[c := Idle], clock := s'.clock)
    case Release(k) =>
      && k < |s.admitted| && s.admitted[k].period > 0 && s.counter < U32_SIZE
      && s' == s.(counter := WrappingSub32(s.counter, s.admitted[k].Ppm()), admitted := RemoveAt(s.admitted, k),
                  clock := s'.clock)
  }

  // ----- the counter is the sum of what is admitted --------------------------------------

  function TotalPpm(admitted: seq<Demand>): nat {
    if admitted == [] then 0
    else
      var last := admitted[|admitted| - 1];
      TotalPpm(admitted[..|admitted| - 1]) + if last.period > 0 then last.Ppm() else 0
  }

  lemma {:induction false} TotalWithout(admitted: seq<Demand>, k: nat)
    requires k < |admitted| && admitted[k].period > 0
    ensures TotalPpm(admitted) == TotalPpm(RemoveAt(admitted, k)) + admitted[k].Ppm()
  {
    var n := |admitted|;
    if k == n - 1 {
      assert RemoveAt(admitted, k) == admitted[..n - 1];
    } else {
      TotalWithout(admitted[..n - 1], k);
      assert RemoveAt(admitted, k)[..n - 2] == RemoveAt(admitted[..n - 1], k);
    }
  }

  ghost predicate Inv(s: State) {
    && s.counter == TotalPpm(s.admitted) <= 700_000
    && (forall k | 0 <= k < |s.admitted| :: s.admitted[k].period > 0)
    && (forall c | 0 <= c < |s.callers| && s.callers[c].Trying? ::
         s.callers[c].demand.period > 0 && s.callers[c].since < s.clock)
  }

  /** The admitted demands, and the counter, after a step that neither admits nor releases. */
  lemma QuietStepKeepsCount(s: State, step: Step, s': State)
    requires Inv(s) && Next(s, step, s') && !step.Exchange? && !step.Release?
    ensures Inv(s') && s'.counter == s.counter && s'.admitted == s.admitted
  {
    hide TotalPpm, Demand.Ppm, SaturatingAdd32;
  }

  lemma AdmittingAdds(admitted: seq<Demand>, d: Demand)
    requires d.period > 0
    ensures TotalPpm(admitted + [d]) == TotalPpm(admitted) + d.Ppm()
  {
    hide Demand.Ppm;
    assert (admitted + [d])[..|admitted|] == admitted;
  }

  lemma ExchangeKeepsCount(s: State, c: nat, s': State)
    requires Inv(s) && Next(s, Exchange(c), s')
    ensures Inv(s') && s.callers[c].Trying? && s.callers[c].demand.period > 0
    ensures s'.counter == s.counter + s.callers[c].demand.Ppm()
    ensures s'.admitted == s.admitted + [s.callers[c].demand]
  {
    AdmittingAdds(s.admitted, s.callers[c].demand);
    hide TotalPpm, Demand.Ppm;
  }

  /** A release never wraps the counter around. */
  lemma ReleaseKeepsCount(s: State, k: nat, s': State)
    requires Inv(s) && Next(s, Release(k), s')
    ensures Inv(s') && s.counter >= s.admitted[k].Ppm() && s'.counter == s.counter - s.admitted[k].Ppm()
  {
    TotalWithout(s.admitted, k);
    hide TotalPpm, Demand.Ppm;
  }

  /** Every step, also a release, keeps the counter equal to the sum: subtraction never wraps. */
  lemma StepKeepsCount(s: State, step: Step, s': State)
    requires Inv(s) && Next(s, step, s')
    ensures Inv(s') && s'.clock == s.clock + 1
    ensures step.Release? ==>
            step.k < |s.admitted| && s.admitted[step.k].period > 0 && s.counter >= s.admitted[step.k].Ppm()
    ensures s'.counter == s.counter + Effect(s, step)
  {
    hide Inv, Next, Demand.Ppm;
    StepShape(s, step, s');
    match step {
      case Exchange(c) => ExchangeKeepsCount(s, c, s');
      case Release(k) => ReleaseKeepsCount(s, k, s');
      case _ => QuietStepKeepsCount(s, step, s');
    }
  }

  lemma StepShape(s: State, step: Step, s': State)
    requires Next(s, step, s')
    ensures s'.clock == s.clock + 1
    ensures step.Release? ==> step.k < |s.admitted| && s.admitted[step.k].period > 0
    ensures step.Exchange? ==> step.c < |s.callers| && s.callers[step.c].Trying? && s.callers[step.c].demand.period > 0
  {
    hide Demand.Ppm, SaturatingAdd32;
  }

  /** What a step adds to the counter: the share it admits, or less the one it releases. */
  function Effect(s: State, step: Step): int {
    match step
    case Exchange(c) =>
      if c < |s.callers| && s.callers[c].Trying? && s.callers[c].demand.period > 0 then s.callers[c].demand.Ppm() else 0
    case Release(k) =>
      var share: int := if k < |s.admitted| && s.admitted[k].period > 0 then s.admitted[k].Ppm() else 0;
      -share
    case _ => 0
  }

  // ----- runs ----------------------------------------------------------------------------

  ghost predicate IsRun(states: seq<State>, steps: seq<Step>) {
    && |states| == |steps| + 1
    && states[0].counter == 0 && states[0].admitted == [] && states[0].clock == 0
    && (forall c | 0 <= c < |states[0].callers| :: states[0].callers[c].Idle?)
    && forall i | 0 <= i < |steps| :: Next(states[i], steps[i], states[i + 1])
  }

  /** Safety over every interleaving: the counter is the admitted sum and below the ceiling. */
  lemma {:induction false} RunKeepsCount(states: seq<State>, steps: seq<Step>, i: nat)
    requires IsRun(states, steps) && i <= |steps|
    ensures Inv(states[i]) && states[i].clock == i
  {
    hide Next;
    if i > 0 {
      RunKeepsCount(states, steps, i - 1);
      StepKeepsCount(states[i - 1], steps[i - 1], states[i]);
    }
  }

  /** What the steps from `i` up to `j` add to the counter between them. */
  function NetEffect(states: seq<State>, steps: seq<Step>, i: nat, j: nat): int
    requires i <= j <= |steps| <= |states|
  {
    if i == j then 0 else NetEffect(states, steps, i, j - 1) + Effect(states[j - 1], steps[j - 1])
  }

  lemma {:induction false} CounterMovesByNetEffect(states: seq<State>, steps: seq<Step>, i: nat, j: nat)
    requires IsRun(states, steps) && i <= j <= |steps|
    ensures states[j].counter == states[i].counter + NetEffect(states, steps, i, j)
    decreases j
  {
    hide Inv, Next, Effect;
    if i < j {
      CounterMovesByNetEffect(states, steps, i, j - 1);
      RunKeepsCount(states, steps, j - 1);
      StepKeepsCount(states[j - 1], steps[j - 1], states[j]);
    }
  }

  /**
    An admission at step `i` and the release of an equal demand at step `j`, with any other callers
    between: the counter stands where those others alone would have moved it.
    */
  lemma ReleaseUndoesAdmit(states: seq<State>, steps: seq<Step>, i: nat, j: nat)
    requires IsRun(states, steps) && i < j < |steps| && steps[i].Exchange? && steps[j].Release?
    requires steps[i].c < |states[i].callers| && states[i].callers[steps[i].c].Trying?
    requires steps[j].k < |states[j].admitted| && states[j].admitted[steps[j].k] == states[i].callers[steps[i].c].demand
    ensures states[j + 1].counter == states[i].counter + NetEffect(states, steps, i + 1, j)
  {
    hide *;
    CounterMovesByOne(states, steps, i);
    CounterMovesByOne(states, steps, j);
    CounterMovesByNetEffect(states, steps, i + 1, j);
    EffectsCancel(states, steps, i, j);
  }

  lemma CounterMovesByOne(states: seq<State>, steps: seq<Step>, i: nat)
    requires IsRun(states, steps) && i < |steps|
    ensures |states| == |steps| + 1
    ensures states[i + 1].counter == states[i].counter + Effect(states[i], steps[i])
  {
    RunKeepsCount(states, steps, i);
    StepAt(states, steps, i);
    hide IsRun, Next, Inv, Effect;
    StepKeepsCount(states[i], steps[i], states[i + 1]);
  }

  /** What the one step adds the other takes away. */
  lemma EffectsCancel(states: seq<State>, steps: seq<Step>, i: nat, j: nat)
    requires IsRun(states, steps) && i < j < |steps| && steps[i].Exchange? && steps[j].Release?
    requires steps[i].c < |states[i].callers| && states[i].callers[steps[i].c].Trying?
    requires steps[j].k < |states[j].admitted| && states[j].admitted[steps[j].k] == states[i].callers[steps[i].c].demand
    ensures Effect(states[i], steps[i]) + Effect(states[j], steps[j]) == 0
  {
    StepAt(states, steps, i);
    hide IsRun, Inv, Demand.Ppm;
  }

  lemma StepAt(states: seq<State>, steps: seq<Step>, i: nat)
    requires IsRun(states, steps) && i < |steps|
    ensures |states| == |steps| + 1 && Next(states[i], steps[i], states[i + 1])
  {
    hide Next;
  }

  /** What a caller has loaded is what the counter held at some moment of its call. */
  lemma {:induction false} LoadedValueWasThere(states: seq<State>, steps: seq<Step>, i: nat, c: nat) returns (k: nat)
    requires IsRun(states, steps) && i <= |steps| && c < |states[i].callers| && states[i].callers[c].Trying?
    ensures states[i].callers[c].since <= k < i && states[k].counter == states[i].callers[c].current
  {
    hide Next, Inv;
    assert i > 0;
    RunKeepsCount(states, steps, i - 1);
    CallerStep(states[i - 1], steps[i - 1], states[i], c);
    if states[i].callers[c] != states[i - 1].callers[c] {
      k := i - 1;
    } else {
      k := LoadedValueWasThere(states, steps, i - 1, c);
    }
  }

  /** A caller holds what it held before, or what the counter holds now. */
  lemma CallerStep(s: State, step: Step, s': State, c: nat)
    requires Inv(s) && Next(s, step, s') && c < |s'.callers| && s'.callers[c].Trying?
    ensures c < |s.callers|
    ensures s'.callers[c] == s.callers[c] || (s'.callers[c].current == s.counter && s'.callers[c].since <= s.clock)
  {
  }

  /**
    A refusal is never due to somebody else's half-done admission: at some moment of the call
    the demands then admitted left no room for this one.
    */
  lemma RefusalIsJustified(states: seq<State>, steps: seq<Step>, i: nat) returns (k: nat)
    requires IsRun(states, steps) && i < |steps| && steps[i].Refuse?
    ensures steps[i].c < |states[i].callers|
    ensures var caller := states[i].callers[steps[i].c];
            && caller.Trying? && caller.demand.period > 0 && caller.since <= k < i
            && TotalPpm(states[k].admitted) + caller.demand.Ppm() > 700_000
  {
    RunKeepsCount(states, steps, i);
    assert Next(states[i], steps[i], states[i + 1]);
    k := LoadedValueWasThere(states, steps, i, steps[i].c);
    RunKeepsCount(states, steps, k);
  }

  // ----- what the counter says about the machine -----------------------------------------

  function Utilisation(admitted: seq<Demand>): real
    requires forall k | 0 <= k < |admitted| :: admitted[k].period > 0
  {
    if admitted == [] then 0.0
    else
      var last := admitted[|admitted| - 1];
      Utilisation(admitted[..|admitted| - 1]) + last.budget as real / last.period as real
  }

  /** The request is wide enough for the arithmetic that measures it. */
  predicate IsMeasurable(d: Demand)
    requires d.period > 0
  {
    && d.TruePpm() < U32_SIZE
    && (d.budget * MILLION <= MAX_U64 || MAX_U64 / d.period == d.TruePpm())
  }

  /** A budget no longer than its period is measurable unless the product saturates. */
  lemma ProperDemandIsMeasurable(d: Demand)
    requires 0 < d.period && d.budget <= d.period && d.budget * MILLION <= MAX_U64
    ensures IsMeasurable(d)
  {
    Arith.MulMonotone(d.budget, d.period, MILLION);
    Arith.QuotientBounds(d.budget * MILLION, d.period, 0, MILLION + 1);
  }

  /** What is measured never exceeds the true share, and is the true share exactly for measurable demands. */
  lemma PpmIsTrueExactly(d: Demand)
    requires d.period > 0
    ensures d.Ppm() <= d.TruePpm()
    ensures d.Ppm() == d.TruePpm() <==> IsMeasurable(d)
  {
    var whole := d.budget * MILLION;
    PpmIsCut(d);
    if whole > MAX_U64 { Arith.QuotientMonotone(MAX_U64, whole, d.period); }
    hide Demand.Ppm;
    CutIsWhole(if whole <= MAX_U64 then d.TruePpm() else MAX_U64 / d.period, d.TruePpm());
    hide Demand.TruePpm;
  }

  lemma PpmIsCut(d: Demand)
    requires d.period > 0
    ensures d.Ppm() == (if d.budget * MILLION <= MAX_U64 then d.TruePpm() else MAX_U64 / d.period) % U32_SIZE
  {
  }

  lemma CutIsWhole(c: nat, q: nat)
    requires c <= q
    ensures c % U32_SIZE <= q && (c % U32_SIZE == q <==> c == q < U32_SIZE)
  {
  }

  /**
    The measured share is within one part per million of the real one exactly for measurable
    demands; any other demand is counted for less than it takes.
    */
  lemma MeasuredExactly(d: Demand)
    requires d.period > 0
    ensures IsMeasurable(d) <==> d.budget as real / d.period as real < (d.Ppm() + 1) as real / MILLION as real
  {
    PpmIsTrueExactly(d);
    RealShare(d, d.Ppm() + 1);
    hide IsMeasurable;
  }

  /** A real share is below `n` parts per million when the whole quotient is. */
  lemma RealShare(d: Demand, n: nat)
    requires d.period > 0
    ensures d.budget as real / d.period as real < n as real / MILLION as real <==> d.TruePpm() < n
  {
    var b, p := d.budget * MILLION, d.period;
    QuotientBelow(b, p, n);
    var x, y, million := d.budget as real, p as real, MILLION as real;
    CrossMultiply(x, y, n as real, million);
    assert x * million == b as real;
    assert n as real * y == (p * n) as real;
  }

  lemma QuotientBelow(b: nat, p: nat, n: nat)
    requires p > 0
    ensures b / p < n <==> b < p * n
  {
    Arith.FloorMultiple(b, p);
    if b / p < n { Arith.MulMonotone(b / p + 1, n, p); } else { Arith.MulMonotone(n, b / p, p); }
  }

  lemma CrossMultiply(x: real, y: real, n: real, m: real)
    requires y > 0.0 && m > 0.0
    ensures x / y < n / m <==> x * m < n * y
  {
    var q, r := x / y, n / m;
    assert x == q * y && n == r * m;
    assert x * m == q * (y * m) && n * y == r * (y * m);
    var k := y * m;
    assert k > 0.0;
    if q < r { assert q * k < r * k; } else { assert q * k >= r * k; }
  }

  lemma {:induction false} UtilisationBound(admitted: seq<Demand>)
    requires forall k | 0 <= k < |admitted| :: admitted[k].period > 0 && IsMeasurable(admitted[k])
    ensures Utilisation(admitted) <= (TotalPpm(admitted) + |admitted|) as real / MILLION as real
    ensures admitted != [] ==> Utilisation(admitted) < (TotalPpm(admitted) + |admitted|) as real / MILLION as real
  {
    if admitted != [] {
      UtilisationBound(admitted[..|admitted| - 1]);
      MeasuredExactly(admitted[|admitted| - 1]);
    }
  }

  /** At every moment the threads admitted really take less than 0.7 plus one part per million each. */
  lemma RunBoundsUtilisation(states: seq<State>, steps: seq<Step>, i: nat)
    requires IsRun(states, steps) && i <= |steps|
    requires forall k | 0 <= k < |states[i].admitted| ::
               states[i].admitted[k].period > 0 ==> IsMeasurable(states[i].admitted[k])
    ensures forall k | 0 <= k < |states[i].admitted| :: states[i].admitted[k].period > 0
    ensures Utilisation(states[i].admitted) <= 0.7 + |states[i].admitted| as real / 1000000.0
    ensures states[i].admitted != [] ==>
            Utilisation(states[i].admitted) < 0.7 + |states[i].admitted| as real / 1000000.0
  {
    RunKeepsCount(states, steps, i);
    UtilisationBound(states[i].admitted);
  }

  /** The cut to 32 bits at work: a demand of 4295 whole processors is measured as nothing. */
  lemma HugeDemandCountsAsNothing()
    ensures var d := Demand(0x1_0000_0000, 1_000_000);
            d.Ppm() == 0 && d.TruePpm() == 0x1_0000_0000 && !IsMeasurable(d)
  {
  }

  // ----- one call, undisturbed -----------------------------------------------------------

  /** The static `RT_UTILISATION_PPM`. */
  class Utilisations {
    var ppm: nat

    constructor ()
      ensures ppm == 0
    {
      ppm := 0;
    }

    /** `compare_exchange_weak`, which may fail although the value is as expected. */
    method CompareExchangeWeak(expected: nat, new_: nat, spurious: bool) returns (r: Result<nat, nat>)
      modifies this
      ensures if old(ppm) == expected && !spurious then r == Ok(expected) && ppm == new_
              else r == Err(old(ppm)) && ppm == old(ppm)
    {
      if ppm == expected && !spurious {
        ppm := new_;
        return Ok(expected);
      }
      r := Err(ppm);
    }

    /** `admit_realtime` while nobody else runs; the weak exchange fails `spurious` times for no reason. */
    method AdmitRealtime(d: Demand, spurious: nat) returns (r: Result<(), SchedError>)
      requires ppm <= 700_000
      modifies this
      ensures d.period == 0 ==> r == Err(RtAdmissionRefused(0, 0)) && ppm == old(ppm)
      ensures d.period > 0 ==>
                if old(ppm) + d.Ppm() <= 700_000 then r == Ok(()) && ppm == old(ppm) + d.Ppm()
                else r == Err(RtAdmissionRefused(d.Ppm(), 700_000 - old(ppm))) && ppm == old(ppm)
      ensures ppm <= 700_000
    {
      if d.period == 0 { return Err(RtAdmissionRefused(0, 0)); }
      var requested := d.Ppm();
      var current := ppm;
      var failures := spurious;
      while true
        invariant current == ppm == old(ppm)
        decreases failures
      {
        var next := SaturatingAdd32(current, requested);
        if next > RT_CEILING_PPM {
          return Err(RtAdmissionRefused(requested, RT_CEILING_PPM - current));
        }
        var swapped := CompareExchangeWeak(current, next, failures > 0);
        match swapped
        case Ok(_) => return Ok(());
        case Err(observed) =>
          current := observed;
          failures := failures - 1;
      }
    }

    method ReleaseRealtime(d: Demand)
      requires ppm < U32_SIZE
      modifies this
      ensures ppm == if d.period == 0 then old(ppm) else WrappingSub32(old(ppm), d.Ppm())
    {
      if d.period == 0 { return; }
      ppm := WrappingSub32(ppm, d.Ppm());
    }
  }

  /** An undisturbed call is two of the atomic steps, with the outcome that `AdmitRealtime` has. */
  lemma UndisturbedCallIsSteps(s: State, c: nat, d: Demand) returns (s1: State, s2: State)
    requires Inv(s) && c < |s.callers| && s.callers[c].Idle? && d.period > 0
    ensures Next(s, Load(c, d), s1)
    ensures if s.counter + d.Ppm() <= 700_000
            then Next(s1, Exchange(c), s2) && s2.counter == s.counter + d.Ppm() && s2.admitted == s.admitted + [d]
            else Next(s1, Refuse(c), s2) && s2.counter == s.counter && s2.admitted == s.admitted
  {
    s1 := s.(callers := s.callers[c := Trying(d, s.counter, s.clock)], clock := s.clock + 1);
    if s.counter + d.Ppm() <= 700_000 {
      s2 := State(s.counter + d.Ppm(), s1.callers[c := Idle], s1.admitted + [d], s1.clock + 1);
    } else {
      s2 := s1.(callers := s1.callers[c := Idle], clock := s1.clock + 1);
    }
  }
}
